/** Octets as they sit in memory, and the few facts about byte strings that several
    parts of the model share. */
module Bytes {

  type byte = x: int | 0 <= x < 256

  /** `n` zero octets. */
  function Zeros(n: nat): (z: seq<byte>)
    ensures |z| == n
  {
    seq(n, i => 0)
  }

  /** The concatenation of a list of byte strings, in order. */
  function Flatten(parts: seq<seq<byte>>): seq<byte> {
    if parts == [] then [] else parts[0] + Flatten(parts[1..])
  }

  lemma {:induction false} FlattenAppend(a: seq<seq<byte>>, b: seq<seq<byte>>)
    ensures Flatten(a + b) == Flatten(a) + Flatten(b)
  {
    if a == [] {
      assert a + b == b;
    } else {
      assert (a + b)[1..] == a[1..] + b;
      FlattenAppend(a[1..], b);
      assert Flatten(a + b) == a[0] + (Flatten(a[1..]) + Flatten(b));
    }
  }

  lemma FlattenSnoc(a: seq<seq<byte>>, p: seq<byte>)
    ensures Flatten(a + [p]) == Flatten(a) + p
  {
    FlattenAppend(a, [p]);
    FlattenOne(p);
  }

  lemma FlattenOne(p: seq<byte>)
    ensures Flatten([p]) == p
  {
    assert Flatten([p]) == p + Flatten([]);
  }

  /** Replaces the two octets at `off`. */
  function SetField(d: seq<byte>, off: nat, w: seq<byte>): (r: seq<byte>)
    requires off + 2 <= |d| && |w| == 2
    ensures |r| == |d|
  {
    d[..off] + w + d[off + 2..]
  }
}
