/** The words of `Words` are the machine's words: each operator on integers is the operator on
    32-bit vectors. */
module MachineWords {
  import opened Words
  import opened Sha1Spec

  /** The 32 low bits of an integer. */
  function Machine(x: nat): bv32 {
    if x == 0 then 0 else Join(Machine(x / 2), LowBit(x))
  }

  function LowBit(x: nat): bv32 {
    if x % 2 == 1 then 1 else 0
  }

  /** One more bit at the bottom. */
  function Join(p: bv32, low: bv32): bv32 {
    (p << 1 as bv32) | low
  }

  function AndV(p: bv32, q: bv32): bv32 { p & q }

  function OrV(p: bv32, q: bv32): bv32 { p | q }

  function XorV(p: bv32, q: bv32): bv32 { p ^ q }

  function NotV(p: bv32): bv32 { !p }

  lemma MachineHalf(x: nat)
    ensures Machine(x) == Join(Machine(x / 2), LowBit(x))
  {
  }

  // The same as relations, so that the operators need not be unfolded where they meet.

  predicate IsJoin(x: bv32, p: bv32, low: bv32) { x == (p << 1 as bv32) | low }

  predicate IsAnd(x: bv32, p: bv32, q: bv32) { x == p & q }

  predicate IsOr(x: bv32, p: bv32, q: bv32) { x == p | q }

  predicate IsXor(x: bv32, p: bv32, q: bv32) { x == p ^ q }

  lemma JoinIs(x: bv32, p: bv32, low: bv32)
    ensures IsJoin(x, p, low) <==> x == Join(p, low)
  {
  }

  lemma AndIs(x: bv32, p: bv32, q: bv32)
    ensures IsAnd(x, p, q) <==> x == AndV(p, q)
  {
  }

  lemma OrIs(x: bv32, p: bv32, q: bv32)
    ensures IsOr(x, p, q) <==> x == OrV(p, q)
  {
  }

  lemma XorIs(x: bv32, p: bv32, q: bv32)
    ensures IsXor(x, p, q) <==> x == XorV(p, q)
  {
  }

  lemma AndOfJoined(p: bv32, q: bv32, e: bv32, f: bv32, x: bv32, y: bv32, r: bv32, w: bv32, v: bv32)
    requires e <= 1 && f <= 1 && IsJoin(x, p, e) && IsJoin(y, q, f)
    requires IsAnd(r, x, y) && IsAnd(w, p, q) && IsAnd(v, e, f)
    ensures IsJoin(r, w, v)
  {
  }

  lemma JoinAnd(p: bv32, q: bv32, e: bv32, f: bv32)
    requires e <= 1 && f <= 1
    ensures AndV(Join(p, e), Join(q, f)) == Join(AndV(p, q), AndV(e, f))
  {
    hide Join, AndV, IsJoin, IsAnd;
    var x, y, w, v := Join(p, e), Join(q, f), AndV(p, q), AndV(e, f);
    JoinIs(x, p, e);
    JoinIs(y, q, f);
    AndIs(w, p, q);
    AndIs(v, e, f);
    AndIs(AndV(x, y), x, y);
    AndOfJoined(p, q, e, f, x, y, AndV(x, y), w, v);
    JoinIs(AndV(x, y), w, v);
  }

  lemma OrOfJoined(p: bv32, q: bv32, e: bv32, f: bv32, x: bv32, y: bv32, r: bv32, w: bv32, v: bv32)
    requires e <= 1 && f <= 1 && IsJoin(x, p, e) && IsJoin(y, q, f)
    requires IsOr(r, x, y) && IsOr(w, p, q) && IsOr(v, e, f)
    ensures IsJoin(r, w, v)
  {
  }

  lemma JoinOr(p: bv32, q: bv32, e: bv32, f: bv32)
    requires e <= 1 && f <= 1
    ensures OrV(Join(p, e), Join(q, f)) == Join(OrV(p, q), OrV(e, f))
  {
    hide Join, OrV, IsJoin, IsOr;
    var x, y, w, v := Join(p, e), Join(q, f), OrV(p, q), OrV(e, f);
    JoinIs(x, p, e);
    JoinIs(y, q, f);
    OrIs(w, p, q);
    OrIs(v, e, f);
    OrIs(OrV(x, y), x, y);
    OrOfJoined(p, q, e, f, x, y, OrV(x, y), w, v);
    JoinIs(OrV(x, y), w, v);
  }

  lemma XorOfJoined(p: bv32, q: bv32, e: bv32, f: bv32, x: bv32, y: bv32, r: bv32, w: bv32, v: bv32)
    requires e <= 1 && f <= 1 && IsJoin(x, p, e) && IsJoin(y, q, f)
    requires IsXor(r, x, y) && IsXor(w, p, q) && IsXor(v, e, f)
    ensures IsJoin(r, w, v)
  {
  }

  lemma JoinXor(p: bv32, q: bv32, e: bv32, f: bv32)
    requires e <= 1 && f <= 1
    ensures XorV(Join(p, e), Join(q, f)) == Join(XorV(p, q), XorV(e, f))
  {
    hide Join, XorV, IsJoin, IsXor;
    var x, y, w, v := Join(p, e), Join(q, f), XorV(p, q), XorV(e, f);
    JoinIs(x, p, e);
    JoinIs(y, q, f);
    XorIs(w, p, q);
    XorIs(v, e, f);
    XorIs(XorV(x, y), x, y);
    XorOfJoined(p, q, e, f, x, y, XorV(x, y), w, v);
    JoinIs(XorV(x, y), w, v);
  }

  lemma LowBits(x: nat, y: nat)
    ensures LowBit(x) <= 1
    ensures AndV(LowBit(x), LowBit(y)) == LowBit(if x % 2 == 1 && y % 2 == 1 then 1 else 0)
    ensures OrV(LowBit(x), LowBit(y)) == LowBit(if x % 2 == 1 || y % 2 == 1 then 1 else 0)
    ensures XorV(LowBit(x), LowBit(y)) == LowBit(if x % 2 != y % 2 then 1 else 0)
  {
  }

  lemma SameLowBit(x: nat, y: nat)
    requires x % 2 == y % 2
    ensures LowBit(x) == LowBit(y)
  {
  }

  /** The logical operators of the machine. */
  lemma {:induction false} MachineAnd(x: nat, y: nat)
    ensures Machine(And(x, y)) == AndV(Machine(x), Machine(y))
  {
    if x != 0 {
      hide Join, LowBit, AndV, Machine;
      MachineAnd(x / 2, y / 2);
      MachineHalf(x);
      MachineHalf(y);
      MachineHalf(And(x, y));
      LowBits(x, y);
      LowBits(y, x);
      SameLowBit(And(x, y), if x % 2 == 1 && y % 2 == 1 then 1 else 0);
      JoinAnd(Machine(x / 2), Machine(y / 2), LowBit(x), LowBit(y));
    } else {
      MachineZero(Machine(y));
    }
  }

  lemma {:induction false} MachineOr(x: nat, y: nat)
    ensures Machine(Or(x, y)) == OrV(Machine(x), Machine(y))
  {
    if x != 0 {
      hide Join, LowBit, OrV, Machine;
      MachineOr(x / 2, y / 2);
      MachineHalf(x);
      MachineHalf(y);
      MachineHalf(Or(x, y));
      LowBits(x, y);
      LowBits(y, x);
      SameLowBit(Or(x, y), if x % 2 == 1 || y % 2 == 1 then 1 else 0);
      JoinOr(Machine(x / 2), Machine(y / 2), LowBit(x), LowBit(y));
    } else {
      MachineZero(Machine(y));
    }
  }

  lemma {:induction false} MachineXor(x: nat, y: nat)
    ensures Machine(Xor(x, y)) == XorV(Machine(x), Machine(y))
  {
    if x != 0 {
      hide Join, LowBit, XorV, Machine;
      MachineXor(x / 2, y / 2);
      MachineHalf(x);
      MachineHalf(y);
      MachineHalf(Xor(x, y));
      LowBits(x, y);
      LowBits(y, x);
      SameLowBit(Xor(x, y), if x % 2 != y % 2 then 1 else 0);
      JoinXor(Machine(x / 2), Machine(y / 2), LowBit(x), LowBit(y));
    } else {
      MachineZero(Machine(y));
    }
  }

  lemma MachineZero(p: bv32)
    ensures Machine(0) == 0 && Machine(1) == 1
    ensures AndV(0, p) == 0 && OrV(0, p) == p && XorV(0, p) == p
  {
    assert Machine(1) == Join(Machine(0), LowBit(1));
  }

  // ------------------------------------------------------------------ parts of a word

  /** `k` zeros behind a word. */
  function Shifted(p: bv32, k: nat): bv32 {
    if k == 0 then p else Join(Shifted(p, k - 1), 0)
  }

  /** Two parts of a number, the lower one of `k` bits. */
  lemma {:induction false} MachineParts(h: nat, l: nat, k: nat)
    requires l < Pow2(k)
    ensures Machine(h * Pow2(k) + l) == OrV(Shifted(Machine(h), k), Machine(l))
  {
    if k == 0 {
      MachineZero(Machine(h));
    } else {
      hide Machine, Join, LowBit, OrV;
      var x := h * Pow2(k) + l;
      HalfOfParts(h, l, Pow2(k - 1));
      MachineParts(h, l / 2, k - 1);
      MachineHalf(x);
      MachineHalf(l);
      SameLowBit(x, l);
      LowBits(l, l);
      LowBitZero(l);
      JoinOr(Shifted(Machine(h), k - 1), Machine(l / 2), 0, LowBit(l));
    }
  }

  lemma HalfOfParts(h: nat, l: nat, p: nat)
    ensures (h * (2 * p) + l) / 2 == h * p + l / 2 && (h * (2 * p) + l) % 2 == l % 2
  {
    assert h * (2 * p) == 2 * (h * p);
  }

  lemma LowBitZero(l: nat)
    ensures OrV(0, LowBit(l)) == LowBit(l)
  {
  }

  /** A number of `k` bits has no other. */
  lemma {:induction false} MachineBound(x: nat, k: nat)
    requires x < Pow2(k)
    ensures OrV(Machine(x), Ones(k)) == Ones(k)
  {
    if k == 0 {
      MachineZero(0);
    } else {
      hide Machine, Join, LowBit, OrV;
      MachineBound(x / 2, k - 1);
      MachineHalf(x);
      LowBits(x, x);
      LowBitOne(x);
      JoinOr(Machine(x / 2), Ones(k - 1), LowBit(x), 1);
    }
  }

  lemma LowBitOne(x: nat)
    ensures OrV(LowBit(x), 1) == 1
  {
  }

  /** `c` is the machine's `k`. */
  predicate Counts(k: nat, c: bv32) {
    if k == 0 then c == 0 else c != 0 && Counts(k - 1, c - 1)
  }

  function ShiftV(p: bv32, c: bv32): bv32
    requires c <= 31
  {
    p << c
  }

  predicate IsShift(x: bv32, p: bv32, c: bv32) {
    c <= 31 && x == p << c
  }

  lemma ShiftIs(x: bv32, p: bv32, c: bv32)
    requires c <= 31
    ensures IsShift(x, p, c) <==> x == ShiftV(p, c)
  {
  }

  lemma ShiftOfJoined(p: bv32, c: bv32, d: bv32, x: bv32, y: bv32)
    requires d < 31 && c == d + 1 && IsShift(x, p, d) && IsJoin(y, x, 0)
    ensures IsShift(y, p, c)
  {
  }

  lemma OneMore(p: bv32, c: bv32, d: bv32)
    requires d < 31 && c == d + 1
    ensures c <= 31 && Join(ShiftV(p, d), 0) == ShiftV(p, c)
  {
    var x := ShiftV(p, d);
    ShiftIs(x, p, d);
    JoinIs(Join(x, 0), x, 0);
    hide Join, ShiftV, IsJoin, IsShift;
    ShiftOfJoined(p, c, d, x, Join(x, 0));
    ShiftIs(Join(x, 0), p, c);
  }

  lemma {:induction false} ShiftedIs(p: bv32, k: nat, c: bv32)
    requires Counts(k, c) && c <= 31
    ensures Shifted(p, k) == ShiftV(p, c)
  {
    if k > 0 {
      hide Join;
      ShiftedIs(p, k - 1, c - 1);
      OneMore(p, c, c - 1);
    }
  }

  lemma Counting()
    ensures Counts(1, 1) && Counts(2, 2) && Counts(5, 5) && Counts(8, 8) && Counts(27, 27)
    ensures Counts(30, 30)
    ensures Counts(31, 31)
  {
    assert Counts(8, 8);
    assert Counts(16, 16);
    assert Counts(24, 24);
  }

  // ------------------------------------------------------------------ octets

  /** The `k`-th octet from the right. */
  function Octet(v: bv32, k: nat): bv8
    requires k < 4
  {
    if k == 0 then (v & 0xFF) as bv8
    else if k == 1 then ((v >> 8) & 0xFF) as bv8
    else if k == 2 then ((v >> 16) & 0xFF) as bv8
    else (v >> 24) as bv8
  }

  function Joined(v3: bv8, v2: bv8, v1: bv8, v0: bv8): bv32 {
    Behind(Behind(Behind(v3 as bv32, v2), v1), v0)
  }

  function Behind(p: bv32, v: bv8): bv32 {
    (p << 8 as bv32) | v as bv32
  }

  /** One more octet behind a number. */
  function With(y: nat, v: bv8): nat {
    0x100 * y + v as nat
  }

  function Number(v3: bv8, v2: bv8, v1: bv8, v0: bv8): word {
    With(With(With(v3 as nat, v2), v1), v0)
  }

  /** The number that a machine word stands for. */
  function Value(v: bv32): word {
    Number(Octet(v, 3), Octet(v, 2), Octet(v, 1), Octet(v, 0))
  }

  lemma OctetsJoined(v: bv32)
    ensures Joined(Octet(v, 3), Octet(v, 2), Octet(v, 1), Octet(v, 0)) == v
  {
  }

  lemma OctetsOf(v3: bv8, v2: bv8, v1: bv8, v0: bv8)
    ensures var v := Joined(v3, v2, v1, v0);
            Octet(v, 3) == v3 && Octet(v, 2) == v2 && Octet(v, 1) == v1 && Octet(v, 0) == v0
  {
  }

  lemma HalfOctet(p: bv8)
    ensures p as nat / 2 == (p >> 1) as nat
    ensures Join((p >> 1) as bv32, LowBit(p as nat)) == p as bv32
  {
  }

  lemma {:induction false} MachineOctet(p: bv8)
    ensures Machine(p as nat) == p as bv32
  {
    if p == 0 {
      MachineZero(0);
    } else {
      HalfOctet(p);
      MachineHalf(p as nat);
      MachineOctet(p >> 1);
    }
  }

  lemma MachineBehind(y: nat, p: bv8)
    ensures Machine(With(y, p)) == Behind(Machine(y), p)
  {
    hide Machine, Shifted, Counts;
    assert Pow2(8) == 0x100;
    MachineParts(y, p as nat, 8);
    MachineOctet(p);
    Counting();
    ShiftedIs(Machine(y), 8, 8);
  }

  lemma MachineNumber(v3: bv8, v2: bv8, v1: bv8, v0: bv8)
    ensures Machine(Number(v3, v2, v1, v0)) == Joined(v3, v2, v1, v0)
  {
    hide Machine, Behind, With;
    MachineOctet(v3);
    MachineBehind(v3 as nat, v2);
    MachineBehind(With(v3 as nat, v2), v1);
    MachineBehind(With(With(v3 as nat, v2), v1), v0);
  }

  lemma DoubledOctet(p: bv8, e: bv8)
    requires p < 0x80 && e <= 1
    ensures ((p << 1 as bv8) | e) as nat == 2 * (p as nat) + e as nat
  {
  }

  /** Every number below 256 is an octet. */
  lemma OctetOf(n: nat) returns (v: bv8)
    requires n < 0x100
    ensures v as nat == n
  {
    v := 0;
    if n > 0 {
      var p := OctetOf(n / 2);
      var e: bv8 := if n % 2 == 1 then 1 else 0;
      DoubledOctet(p, e);
      v := (p << 1 as bv8) | e;
    }
  }

  lemma NumberOf(x: word) returns (v3: bv8, v2: bv8, v1: bv8, v0: bv8)
    ensures x == Number(v3, v2, v1, v0)
  {
    v3 := OctetOf(x / 0x100_0000);
    v2 := OctetOf(x / 0x1_0000 % 0x100);
    v1 := OctetOf(x / 0x100 % 0x100);
    v0 := OctetOf(x % 0x100);
    FourOctets(x, v3 as nat, v2 as nat, v1 as nat, v0 as nat);
  }

  lemma FourOctets(x: word, d3: nat, d2: nat, d1: nat, d0: nat)
    requires d3 == x / 0x100_0000 && d2 == x / 0x1_0000 % 0x100
    requires d1 == x / 0x100 % 0x100 && d0 == x % 0x100
    ensures x == 0x100 * (0x100 * (0x100 * d3 + d2) + d1) + d0
  {
  }

  lemma MachineValue(v: bv32)
    ensures Machine(Value(v)) == v
  {
    hide Machine, Number, Joined, Octet;
    MachineNumber(Octet(v, 3), Octet(v, 2), Octet(v, 1), Octet(v, 0));
    OctetsJoined(v);
  }

  lemma ValueMachine(x: word)
    ensures Value(Machine(x)) == x
  {
    hide Machine, Number, Joined, Octet;
    var v3, v2, v1, v0 := NumberOf(x);
    MachineNumber(v3, v2, v1, v0);
    OctetsOf(v3, v2, v1, v0);
  }

  /** The operators on words are those of the machine. */
  lemma ValueAnd(p: bv32, q: bv32)
    ensures Value(AndV(p, q)) == And(Value(p), Value(q))
  {
    hide Value, Machine, AndV;
    MachineValue(p);
    MachineValue(q);
    MachineAnd(Value(p), Value(q));
    ValueMachine(And(Value(p), Value(q)));
  }

  lemma ValueOr(p: bv32, q: bv32)
    ensures Value(OrV(p, q)) == OrW(Value(p), Value(q))
  {
    hide Value, Machine, OrV;
    MachineValue(p);
    MachineValue(q);
    MachineOr(Value(p), Value(q));
    ValueMachine(OrW(Value(p), Value(q)));
  }

  lemma ValueXor(p: bv32, q: bv32)
    ensures Value(XorV(p, q)) == XorW(Value(p), Value(q))
  {
    hide Value, Machine, XorV;
    MachineValue(p);
    MachineValue(q);
    MachineXor(Value(p), Value(q));
    ValueMachine(XorW(Value(p), Value(q)));
  }

  /** `k` ones. */
  function Ones(k: nat): bv32 {
    if k == 0 then 0 else Join(Ones(k - 1), 1)
  }

  lemma {:induction false} MachineComplement(x: nat, k: nat)
    requires x < Pow2(k)
    ensures Machine(Pow2(k) - 1 - x) == XorV(Machine(x), Ones(k))
  {
    if k == 0 {
      MachineZero(0);
    } else {
      hide Machine, Join, LowBit, XorV;
      var y := Pow2(k) - 1 - x;
      assert y / 2 == Pow2(k - 1) - 1 - x / 2 && y % 2 == 1 - x % 2;
      MachineComplement(x / 2, k - 1);
      MachineHalf(x);
      MachineHalf(y);
      LowBits(x, 1);
      LowBits(1, x);
      OneBit();
      SameLowBit(y, if x % 2 != 1 % 2 then 1 else 0);
      JoinXor(Machine(x / 2), Ones(k - 1), LowBit(x), 1);
    }
  }

  lemma OneBit()
    ensures LowBit(1) == 1
  {
  }

  lemma ValueNot(p: bv32)
    ensures Value(NotV(p)) == Not(Value(p))
  {
    hide Value, Machine, Ones;
    MachineValue(p);
    Pow2Of32();
    MachineComplement(Value(p), 32);
    OnesOf();
    ValueMachine(Not(Value(p)));
  }

  function Rotate(n: nat, v: bv32): bv32
    requires n == 1 || n == 5 || n == 30
  {
    if n == 1 then (v << 1 as bv32) | (v >> 31 as bv32)
    else if n == 5 then (v << 5 as bv32) | (v >> 27 as bv32)
    else (v << 30 as bv32) | (v >> 2 as bv32)
  }

  lemma OnesOf()
    ensures Ones(1) == 1 && Ones(2) == 3 && Ones(5) == 0x1F && Ones(27) == 0x7FF_FFFF
    ensures Ones(30) == 0x3FFF_FFFF && Ones(31) == 0x7FFF_FFFF && Ones(32) == 0xFFFF_FFFF
  {
    assert Ones(8) == 0xFF;
    assert Ones(16) == 0xFFFF;
    assert Ones(24) == 0xFF_FFFF;
  }

  lemma PartsOfOne(h: bv32, l: bv32)
    requires OrV(h, 1) == 1 && OrV(l, 0x7FFF_FFFF) == 0x7FFF_FFFF
    ensures Rotate(1, OrV(h << 31 as bv32, l)) == OrV(l << 1 as bv32, h)
  {
  }

  lemma PartsOfFive(h: bv32, l: bv32)
    requires OrV(h, 0x1F) == 0x1F && OrV(l, 0x7FF_FFFF) == 0x7FF_FFFF
    ensures Rotate(5, OrV(h << 27 as bv32, l)) == OrV(l << 5 as bv32, h)
  {
  }

  lemma PartsOfThirty(h: bv32, l: bv32)
    requires OrV(h, 0x3FFF_FFFF) == 0x3FFF_FFFF && OrV(l, 3) == 3
    ensures Rotate(30, OrV(h << 2 as bv32, l)) == OrV(l << 30 as bv32, h)
  {
  }

  lemma RotatedParts(n: nat, h: bv32, l: bv32)
    requires n == 1 || n == 5 || n == 30
    requires OrV(h, Ones(n)) == Ones(n) && OrV(l, Ones(32 - n)) == Ones(32 - n)
    ensures Rotate(n, OrV(Shifted(h, 32 - n), l)) == OrV(Shifted(l, n), h)
  {
    hide Shifted, Ones, Rotate, OrV, Counts;
    OnesOf();
    Counting();
    if n == 1 {
      ShiftedIs(h, 31, 31);
      ShiftedIs(l, 1, 1);
      PartsOfOne(h, l);
    } else if n == 5 {
      ShiftedIs(h, 27, 27);
      ShiftedIs(l, 5, 5);
      PartsOfFive(h, l);
    } else {
      ShiftedIs(h, 2, 2);
      ShiftedIs(l, 30, 30);
      PartsOfThirty(h, l);
    }
  }

  lemma ValueRotate(n: nat, v: bv32)
    requires n == 1 || n == 5 || n == 30
    ensures Value(Rotate(n, v)) == RotateLeft(n, Value(v))
  {
    hide Value, Machine, Ones, Rotate, Shifted, OrV, Pow2, RotateLeft;
    var x := Value(v);
    var h, l := RotateParts(n, x);
    MachineValue(v);
    MachineParts(h, l, 32 - n);
    MachineParts(l, h, n);
    MachineBound(h, n);
    MachineBound(l, 32 - n);
    RotatedParts(n, Machine(h), Machine(l));
    ValueMachine(RotateLeft(n, x));
  }
}
