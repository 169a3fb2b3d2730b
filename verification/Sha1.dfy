/** The streaming SHA-1 of the router: a context that takes the message in pieces of any
    length, buffers at most one block, counts bits in two 32-bit words and pads at the end. */
module Sha1 {
  import opened Bytes
  import opened Words
  import opened Sha1Spec

  /** The circular shift macro: both halves shifted apart and joined bitwise. */
  function CircularShift(bits: nat, x: word): word
    requires 0 < bits < 32
  {
    SplitWord(bits, x);
    OrW(x * Pow2(bits) % TWO_32, x / Pow2(32 - bits))
  }

  /** The macro is the rotation of the standard, for every shift amount. */
  lemma CircularShiftRotates(bits: nat, x: word)
    requires 0 < bits < 32
    ensures CircularShift(bits, x) == RotateLeft(bits, x)
  {
    hide Pow2, Or;
    SplitWord(bits, x);
    var p := Pow2(32 - bits);
    var d, r := x / p, x % p;
    Halves(x, p);
    ShiftDropsTop(x, d, r, p, Pow2(bits));
    OrDisjoint(r, d, bits);
  }

  lemma ShiftDropsTop(x: nat, d: nat, r: nat, p: nat, q: nat)
    requires x == p * d + r && p * q == TWO_32
    requires r * q + d < TWO_32
    ensures x * q % TWO_32 == r * q
  {
    assert x * q == TWO_32 * d + r * q by {
      assert p * d * q == p * q * d;
    }
  }

  /** Shifting four octets into place and joining them bitwise reads a big-endian word. */
  lemma JoinOctets(b0: byte, b1: byte, b2: byte, b3: byte)
    ensures var w: nat := b0 * 0x100_0000;
            Or(Or(Or(w, b1 * 0x1_0000), b2 * 0x100), b3)
            == w + b1 * 0x1_0000 + b2 * 0x100 + b3
  {
    hide Pow2, Or;
    Pow2Of32();
    OrDisjoint(b0, b1 * 0x1_0000, 24);
    OrDisjoint(b0 * 0x100 + b1, b2 * 0x100, 16);
    OrDisjoint(b0 * 0x1_0000 + b1 * 0x100 + b2, b3, 8);
  }

  function AsBuffers(d: seq<word>): Buffers
    requires |d| == 5
  {
    Buffers(d[0], d[1], d[2], d[3], d[4])
  }

  class Context {
    const digest: array<word>
    const block: array<byte>
    var index: nat
    var lengthHigh: nat
    var lengthLow: nat
    var computed: bool
    var corrupted: bool

    /** Every octet accepted since the last reset. */
    ghost var message: seq<byte>

    /** The part of the message that has gone through the compression function. */
    ghost var hashed: seq<byte>

    ghost predicate Shape()
      reads this
    {
      digest.Length == 5 && block.Length == 64
    }

    ghost function Hash(): Buffers
      requires Shape()
      reads this, digest
    {
      AsBuffers(digest[..])
    }

    /** While the message is being read: the index is the octet count mod 64, the two words
        hold the bit count, the buffer holds the unprocessed tail. */
    ghost predicate Reading()
      requires Shape()
      reads this, digest, block
    {
      && lengthHigh < TWO_32 && lengthLow < TWO_32
      && lengthHigh * TWO_32 + lengthLow == 8 * |message|
      && index == |message| % 64
      && |hashed| % 64 == 0
      && message == hashed + block[..index]
      && Hash() == HashBlocks(hashed)
    }

    ghost predicate Valid()
      reads this, digest, block
    {
      && Shape()
      && (!corrupted && !computed ==> Reading())
      && (!corrupted && computed ==> 8 * |message| < TWO_64 && Hash() == Digest(message))
    }

    constructor ()
      ensures Valid() && !corrupted && !computed && message == []
      ensures fresh(digest) && fresh(block)
    {
      digest := new word[5];
      block := new byte[64];
      new;
      Reset();
    }

    method Reset()
      requires Shape()
      modifies this, digest
      ensures Valid() && !corrupted && !computed && message == []
    {
      hide Compress;
      lengthLow := 0;
      lengthHigh := 0;
      index := 0;
      digest[0] := 0x67452301;
      digest[1] := 0xEFCDAB89;
      digest[2] := 0x98BADCFE;
      digest[3] := 0x10325476;
      digest[4] := 0xC3D2E1F0;
      computed := false;
      corrupted := false;
      message := [];
      hashed := [];
    }

    /** Returns whether the digest is available; the digest is that of everything read, and
        asking again changes nothing. */
    method Result() returns (success: bool)
      requires Valid()
      modifies this, digest, block
      ensures Valid() && message == old(message)
      ensures corrupted == old(corrupted)
      ensures success == !corrupted
      ensures success ==> computed && Hash() == Digest(message)
      ensures old(computed || corrupted) ==> computed == old(computed) && Hash() == old(Hash())
    {
      if corrupted {
        return false;
      }
      if !computed {
        PadMessage();
        computed := true;
      }
      return true;
    }

    /** Appends `data` to the message.  The context is spoiled exactly by a message of 2^64
        bits or more, and by input after the digest was taken. */
    method Input(data: seq<byte>)
      requires Valid()
      modifies this, digest, block
      ensures Valid()
      ensures computed == old(computed)
      ensures corrupted == (old(corrupted)
                            || (data != [] && (old(computed) || 8 * |old(message) + data| >= TWO_64)))
      ensures !corrupted ==> message == old(message) + data
      ensures old(corrupted || computed) ==> message == old(message)
    {
      if |data| == 0 {
        return;
      }
      if computed || corrupted {
        corrupted := true;
        return;
      }
      var k := 0;
      while k < |data| && !corrupted
        invariant k <= |data|
        invariant Valid() && !computed
        invariant message == old(message) + data[..k]
        invariant corrupted ==> 8 * |message| >= TWO_64
        modifies this, digest, block
        decreases |data| - k
      {
        InputOctet(data[k]);
        k := k + 1;
        assert data[..k] == data[..k - 1] + [data[k - 1]];
      }
    }

    /** The body of the input loop. */
    method InputOctet(b: byte)
      requires Valid() && !computed && !corrupted
      modifies this, digest, block
      ensures Valid() && !computed
      ensures message == old(message) + [b]
      ensures corrupted == (8 * |message| >= TWO_64)
    {
      hide HashBlocks, Compress, Digest, Pad;
      StoreOctet(b);
      CountOctet(|message|);
      message := message + [b];
      assert message == hashed + block[..index];
      assert |message| == |hashed| + index;
      if index == 64 {
        HashBuffered();
      }
    }

    /** Processes a full buffer. */
    method HashBuffered()
      requires Shape() && index == 64
      requires |hashed| % 64 == 0 && Hash() == HashBlocks(hashed)
      modifies this`index, this`hashed, digest
      ensures index == 0
      ensures hashed == old(hashed) + block[..]
      ensures |hashed| % 64 == 0 && Hash() == HashBlocks(hashed)
    {
      hide Compress;
      HashBlocksSnoc(hashed, block[..]);
      ProcessMessageBlock();
      hashed := hashed + block[..];
    }

    /** Adds eight to the bit count held in the two words.  They carry like one 64-bit
        counter, and the context is spoiled when that counter wraps. */
    method CountOctet(ghost n: nat)
      requires lengthHigh < TWO_32 && lengthLow < TWO_32 && !corrupted
      requires lengthHigh * TWO_32 + lengthLow == 8 * n
      modifies this`lengthHigh, this`lengthLow, this`corrupted
      ensures corrupted == (8 * (n + 1) >= TWO_64)
      ensures !corrupted ==> lengthHigh < TWO_32 && lengthLow < TWO_32
                             && lengthHigh * TWO_32 + lengthLow == 8 * (n + 1)
    {
      lengthLow := (lengthLow + 8) % TWO_32;
      if lengthLow == 0 {
        lengthHigh := (lengthHigh + 1) % TWO_32;
        if lengthHigh == 0 {
          corrupted := true;
        }
      }
    }

    /** Compresses the buffered block into the digest and empties the buffer. */
    method ProcessMessageBlock()
      requires Shape()
      modifies this`index, digest
      ensures index == 0
      ensures Hash() == Compress(old(Hash()), block[..])
    {
      hide Round, Schedule;
      var w := MessageSchedule();
      var a, b, c, d, e :=
        Passes(w, block[..], Hash(), digest[0], digest[1], digest[2], digest[3], digest[4]);
      digest[0] := Add(digest[0], a);
      digest[1] := Add(digest[1], b);
      digest[2] := Add(digest[2], c);
      digest[3] := Add(digest[3], d);
      digest[4] := Add(digest[4], e);
      index := 0;
    }

    /** The word sequence of the buffered block. */
    method MessageSchedule() returns (w: array<word>)
      requires Shape()
      ensures fresh(w) && w.Length == 80
      ensures forall i: nat :: i < 80 ==> w[i] == Schedule(block[..], i)
    {
      hide RotateLeft, CircularShift, XorW, Or;
      ghost var blk := block[..];
      w := new word[80];
      var t := 0;
      while t < 16
        invariant t <= 16
        invariant forall i: nat :: i < t ==> w[i] == Schedule(blk, i)
        modifies w
      {
        w[t] := block[t * 4] as nat * 0x100_0000;
        w[t] := OrW(w[t], block[t * 4 + 1] as nat * 0x1_0000);
        w[t] := OrW(w[t], block[t * 4 + 2] as nat * 0x100);
        w[t] := OrW(w[t], block[t * 4 + 3]);
        assert w[t] == Schedule(blk, t) by {
          JoinOctets(blk[4 * t], blk[4 * t + 1], blk[4 * t + 2], blk[4 * t + 3]);
        }
        t := t + 1;
      }
      while t < 80
        invariant 16 <= t <= 80
        invariant forall i: nat :: i < t ==> w[i] == Schedule(blk, i)
        modifies w
      {
        var x := XorW(XorW(XorW(w[t - 3], w[t - 8]), w[t - 14]), w[t - 16]);
        CircularShiftRotates(1, x);
        w[t] := CircularShift(1, x);
        t := t + 1;
      }
    }

    /** The four loops of twenty passes each. */
    static method Passes(w: array<word>, ghost blk: seq<byte>, ghost h: Buffers,
                         a0: word, b0: word, c0: word, d0: word, e0: word)
      returns (a: word, b: word, c: word, d: word, e: word)
      requires |blk| == 64 && w.Length == 80
      requires forall i: nat :: i < 80 ==> w[i] == Schedule(blk, i)
      requires h == Buffers(a0, b0, c0, d0, e0)
      ensures Buffers(a, b, c, d, e) == Rounds(blk, h, 80)
    {
      a, b, c, d, e := a0, b0, c0, d0, e0;
      var t: nat := 0;
      while t < 20
        invariant t <= 20
        invariant Buffers(a, b, c, d, e) == Rounds(blk, h, t)
      {
        CircularShiftRotates(5, a);
        CircularShiftRotates(30, b);
        var temp := Add(Add(Add(Add(CircularShift(5, a), OrW(And(b, c), And(Not(b), d))), e), w[t]),
                        0x5A827999);
        e := d;
        d := c;
        c := CircularShift(30, b);
        b := a;
        a := temp;
        t := t + 1;
      }
      while t < 40
        invariant 20 <= t <= 40
        invariant Buffers(a, b, c, d, e) == Rounds(blk, h, t)
      {
        CircularShiftRotates(5, a);
        CircularShiftRotates(30, b);
        var temp := Add(Add(Add(Add(CircularShift(5, a), XorW(XorW(b, c), d)), e), w[t]), 0x6ED9EBA1);
        e := d;
        d := c;
        c := CircularShift(30, b);
        b := a;
        a := temp;
        t := t + 1;
      }
      while t < 60
        invariant 40 <= t <= 60
        invariant Buffers(a, b, c, d, e) == Rounds(blk, h, t)
      {
        CircularShiftRotates(5, a);
        CircularShiftRotates(30, b);
        var temp := Add(Add(Add(Add(CircularShift(5, a), OrW(OrW(And(b, c), And(b, d)), And(c, d))),
                                e), w[t]), 0x8F1BBCDC);
        e := d;
        d := c;
        c := CircularShift(30, b);
        b := a;
        a := temp;
        t := t + 1;
      }
      while t < 80
        invariant 60 <= t <= 80
        invariant Buffers(a, b, c, d, e) == Rounds(blk, h, t)
      {
        CircularShiftRotates(5, a);
        CircularShiftRotates(30, b);
        var temp := Add(Add(Add(Add(CircularShift(5, a), XorW(XorW(b, c), d)), e), w[t]), 0xCA62C1D6);
        e := d;
        d := c;
        c := CircularShift(30, b);
        b := a;
        a := temp;
        t := t + 1;
      }
    }

    /** Appends one octet to the buffer. */
    method StoreOctet(b: byte)
      requires Shape() && index < 64
      modifies this`index, block
      ensures index == old(index) + 1
      ensures block[..index] == old(block[..index]) + [b]
    {
      block[index] := b;
      index := index + 1;
    }

    /** Writes zero octets from the index up to `limit`. */
    method ZeroFill(limit: nat)
      requires Shape() && index <= limit <= 64
      modifies this`index, block
      ensures index == limit
      ensures block[..limit] == old(block[..index]) + Zeros(limit - old(index))
    {
      while index < limit
        invariant old(index) <= index <= limit
        invariant block[..index] == old(block[..index]) + Zeros(index - old(index))
        modifies this`index, block
      {
        ghost var before := block[..index];
        block[index] := 0;
        index := index + 1;
        assert block[..index] == before + [0];
      }
    }

    /** Pads the buffered tail and processes it: one block when the tail leaves room for the
        length, two blocks when it does not. */
    method PadMessage()
      requires Valid() && !computed && !corrupted
      modifies this, digest, block
      ensures Hash() == Digest(message)
      ensures message == old(message) && computed == old(computed) && corrupted == old(corrupted)
    {
      hide HashBlocks, Compress, Pad, BigEndian;
      ghost var tail := block[..index];
      ghost var field := BigEndian(8 * |message|, 8);
      if index > 55 {
        StoreOctet(0x80);
        ZeroFill(64);
        assert block[..] == block[..64];
        HashBuffered();
        ZeroFill(56);
        PadTwoBlocks(old(hashed), tail);
        assert Pad(message) == hashed + (block[..56] + field);
      } else {
        StoreOctet(0x80);
        ZeroFill(56);
        PadOneBlock(hashed, tail);
        assert Pad(message) == hashed + (block[..56] + field);
      }
      StoreLength();
      assert block[..] == block[..56] + field;
      HashBlocksSnoc(hashed, block[..]);
      ProcessMessageBlock();
    }

    /** The message length as the last eight octets. */
    method StoreLength()
      requires Shape()
      requires lengthHigh < TWO_32 && lengthLow < TWO_32
      modifies block
      ensures block[..56] == old(block[..56])
      ensures block[56..] == BigEndian(lengthHigh * TWO_32 + lengthLow, 8)
    {
      block[56] := lengthHigh / 0x100_0000 % 256;
      block[57] := lengthHigh / 0x1_0000 % 256;
      block[58] := lengthHigh / 0x100 % 256;
      block[59] := lengthHigh % 256;
      block[60] := lengthLow / 0x100_0000 % 256;
      block[61] := lengthLow / 0x1_0000 % 256;
      block[62] := lengthLow / 0x100 % 256;
      block[63] := lengthLow % 256;
      LengthOctets(lengthHigh, lengthLow);
    }
  }

  /** Any run of a context: reset, any number of pieces of any length, result.  The digest is
      that of the pieces joined, wherever the cuts are, and the run fails exactly when the
      message has 2^64 bits or more. */
  method HashPieces(c: Context, pieces: seq<seq<byte>>) returns (success: bool)
    requires c.Shape()
    modifies c, c.digest, c.block
    ensures c.Valid()
    ensures success == (8 * |Flatten(pieces)| < TWO_64)
    ensures success ==> c.Hash() == Digest(Flatten(pieces))
  {
    hide Digest;
    c.Reset();
    for k := 0 to |pieces|
      invariant c.Valid() && !c.computed
      invariant c.corrupted == (8 * |Flatten(pieces[..k])| >= TWO_64)
      invariant !c.corrupted ==> c.message == Flatten(pieces[..k])
    {
      FlattenSnoc(pieces[..k], pieces[k]);
      assert pieces[..k + 1] == pieces[..k] + [pieces[k]];
      c.Input(pieces[k]);
    }
    assert pieces[..|pieces|] == pieces;
    success := c.Result();
  }

  /** A tail of at most 55 octets: the padded message ends with one more block. */
  lemma PadOneBlock(head: seq<byte>, tail: seq<byte>)
    requires |head| % 64 == 0 && |tail| <= 55
    ensures var n := 8 * |head + tail|;
            Pad(head + tail) == head + (tail + [0x80] + Zeros(55 - |tail|) + BigEndian(n, 8))
  {
    assert ZeroCount(|head + tail|) == 55 - |tail|;
  }

  /** A longer tail: the padded message ends with two more blocks. */
  lemma PadTwoBlocks(head: seq<byte>, tail: seq<byte>)
    requires |head| % 64 == 0 && 56 <= |tail| < 64
    ensures var n := 8 * |head + tail|;
            Pad(head + tail) == head + (tail + [0x80] + Zeros(63 - |tail|))
                                     + (Zeros(56) + BigEndian(n, 8))
  {
    assert ZeroCount(|head + tail|) == 63 - |tail| + 56;
    assert Zeros(63 - |tail|) + Zeros(56) == Zeros(63 - |tail| + 56);
  }

  lemma LengthOctets(high: nat, low: nat)
    requires high < TWO_32 && low < TWO_32
    ensures BigEndian(high * TWO_32 + low, 8)
         == [high / 0x100_0000 % 256, high / 0x1_0000 % 256, high / 0x100 % 256, high % 256,
             low / 0x100_0000 % 256, low / 0x1_0000 % 256, low / 0x100 % 256, low % 256]
  {
    WordOctets(low, high, 4);
    WordOctets(high, 0, 0);
  }

  lemma WordOctets(w: nat, n: nat, k: nat)
    requires w < TWO_32
    ensures BigEndian(n * TWO_32 + w, k + 4) == BigEndian(n, k)
         + [w / 0x100_0000 % 256, w / 0x1_0000 % 256, w / 0x100 % 256, w % 256]
  {
    hide BigEndian;
    BigEndianSnoc(n, w / 0x100_0000, k);
    BigEndianSnoc(n * 0x100 + w / 0x100_0000, w / 0x1_0000 % 256, k + 1);
    BigEndianSnoc(n * 0x1_0000 + w / 0x1_0000, w / 0x100 % 256, k + 2);
    BigEndianSnoc(n * 0x100_0000 + w / 0x100, w % 256, k + 3);
    Digits(w);
  }

  lemma Digits(w: nat)
    requires w < TWO_32
    ensures w / 0x100 == w / 0x1_0000 * 0x100 + w / 0x100 % 256
    ensures w / 0x1_0000 == w / 0x100_0000 * 0x100 + w / 0x1_0000 % 256
    ensures 0 <= w / 0x100_0000 < 256
  {
  }

  lemma BigEndianSnoc(n: nat, d: byte, k: nat)
    ensures BigEndian(n * 256 + d, k + 1) == BigEndian(n, k) + [d]
  {
  }
}
