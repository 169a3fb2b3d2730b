/** 32-bit words as the C operators see them: unsigned arithmetic that wraps, shifts that
    drop bits, and the bitwise operators, defined bit by bit. */
module Words {

  const TWO_32: nat := 0x1_0000_0000

  type word = x: nat | x < TWO_32

  function Add(x: word, y: word): word {
    (x + y) % TWO_32
  }

  function Not(x: word): word {
    TWO_32 - 1 - x
  }

  function And(x: nat, y: nat): (r: nat)
    ensures r <= x && r <= y
    decreases x
  {
    if x == 0 then 0
    else 2 * And(x / 2, y / 2) + (if x % 2 == 1 && y % 2 == 1 then 1 else 0)
  }

  function Or(x: nat, y: nat): nat
    decreases x
  {
    if x == 0 then y
    else 2 * Or(x / 2, y / 2) + (if x % 2 == 1 || y % 2 == 1 then 1 else 0)
  }

  function Xor(x: nat, y: nat): nat
    decreases x
  {
    if x == 0 then y
    else 2 * Xor(x / 2, y / 2) + (if x % 2 != y % 2 then 1 else 0)
  }

  function Bit(x: nat, i: nat): bool {
    if i == 0 then x % 2 == 1 else Bit(x / 2, i - 1)
  }

  /** The operators work on each bit by itself. */
  lemma {:induction false} BitOfAnd(x: nat, y: nat, i: nat)
    ensures Bit(And(x, y), i) == (Bit(x, i) && Bit(y, i))
  {
    if x == 0 {
      BitOfZero(i);
    } else if i > 0 {
      BitOfAnd(x / 2, y / 2, i - 1);
    }
  }

  lemma {:induction false} BitOfOr(x: nat, y: nat, i: nat)
    ensures Bit(Or(x, y), i) == (Bit(x, i) || Bit(y, i))
  {
    if x == 0 {
      BitOfZero(i);
    } else if i > 0 {
      BitOfOr(x / 2, y / 2, i - 1);
    }
  }

  lemma {:induction false} BitOfXor(x: nat, y: nat, i: nat)
    ensures Bit(Xor(x, y), i) == (Bit(x, i) != Bit(y, i))
  {
    if x == 0 {
      BitOfZero(i);
    } else if i > 0 {
      BitOfXor(x / 2, y / 2, i - 1);
    }
  }

  lemma {:induction false} BitOfZero(i: nat)
    ensures !Bit(0, i)
  {
    if i > 0 {
      BitOfZero(i - 1);
    }
  }

  lemma {:induction false} BitOfNot(x: word, i: nat)
    requires i < 32
    ensures Bit(Not(x), i) == !Bit(x, i)
  {
    Pow2Of32();
    ComplementBit(x, 32, i);
  }

  lemma {:induction false} ComplementBit(x: nat, k: nat, i: nat)
    requires i < k && x < Pow2(k)
    ensures Bit(Pow2(k) - 1 - x, i) == !Bit(x, i)
  {
    if i > 0 {
      ComplementBit(x / 2, k - 1, i - 1);
      assert (Pow2(k) - 1 - x) / 2 == Pow2(k - 1) - 1 - x / 2;
    }
  }

  function Pow2(k: nat): (p: nat)
    ensures p > 0
  {
    if k == 0 then 1 else 2 * Pow2(k - 1)
  }

  /** Neither operator carries: operands below a power of two give a result below it. */
  lemma {:induction false} BitwiseBound(x: nat, y: nat, k: nat)
    requires x < Pow2(k) && y < Pow2(k)
    ensures Or(x, y) < Pow2(k) && Xor(x, y) < Pow2(k)
  {
    if k > 0 && x > 0 {
      BitwiseBound(x / 2, y / 2, k - 1);
    }
  }

  lemma Monotone(p: nat, d: nat, q: nat)
    requires q <= d
    ensures p * q <= p * d
  {
  }

  /** Quotient and remainder, the other way round, stay within the same range. */
  lemma SwapBound(d: nat, r: nat, p: nat, q: nat)
    requires r < p && p * d + r < p * q
    ensures d < q
    ensures r * q + d < p * q
  {
    if q <= d {
      Monotone(p, d, q);
    }
    Monotone(q, p, r + 1);
  }

  lemma Halves(x: nat, p: nat)
    requires p > 0
    ensures x == p * (x / p) + x % p
  {
  }

  lemma {:induction false} Pow2Sum(j: nat, k: nat)
    ensures Pow2(j + k) == Pow2(j) * Pow2(k)
  {
    if j > 0 {
      Pow2Sum(j - 1, k);
    }
  }

  lemma Pow2Of32()
    ensures Pow2(8) == 0x100 && Pow2(16) == 0x1_0000 && Pow2(24) == 0x100_0000
    ensures Pow2(32) == TWO_32
  {
    assert Pow2(8) == 0x100;
    assert Pow2(16) == 0x1_0000;
    assert Pow2(24) == 0x100_0000;
  }

  function OrW(x: word, y: word): word {
    Pow2Of32();
    BitwiseBound(x, y, 32);
    Or(x, y)
  }

  function XorW(x: word, y: word): word {
    Pow2Of32();
    BitwiseBound(x, y, 32);
    Xor(x, y)
  }

  /** Bits that do not meet are joined by adding. */
  lemma {:induction false} OrDisjoint(x: nat, y: nat, k: nat)
    requires y < Pow2(k)
    ensures Or(x * Pow2(k), y) == x * Pow2(k) + y
    decreases k
  {
    if k == 0 {
      OrZero(x);
    } else if x > 0 {
      var p := Pow2(k - 1);
      assert x * Pow2(k) == 2 * (x * p);
      OrDisjoint(x, y / 2, k - 1);
      assert x * Pow2(k) > 0;
    }
  }

  lemma {:induction false} OrZero(x: nat)
    ensures Or(x, 0) == x
  {
    if x > 0 {
      OrZero(x / 2);
    }
  }
}
