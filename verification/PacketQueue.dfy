/** The packet queue between the layers of a mysocket: a singly linked list with head and
    tail pointers, whose head packet can be taken in pieces. */
module PacketQueue {
  import opened Bytes

  /** What is copied out of the packet at the head. */
  function Taken(packet: seq<byte>, maxLen: nat): seq<byte> {
    if |packet| > maxLen then packet[..maxLen] else packet
  }

  /** Whether only a part of the packet is removed. */
  predicate Splits(packet: seq<byte>, maxLen: nat, partial: bool) {
    |packet| > maxLen && partial
  }

  /** What stays in the queue. */
  function Left(q: seq<seq<byte>>, maxLen: nat, partial: bool): seq<seq<byte>>
    requires q != []
  {
    if Splits(q[0], maxLen, partial) then [q[0][maxLen..]] + q[1..] else q[1..]
  }

  class Node {
    var data: array<byte>
    var dataLen: nat
    var next: Node?
    ghost var number: int

    constructor (packet: seq<byte>, ghost n: int)
      ensures number == n
      ensures fresh(data) && Carries(packet) && next == null
    {
      data := new byte[|packet|](i requires 0 <= i < |packet| => packet[i]);
      dataLen := |packet|;
      next := null;
      number := n;
      new;
      assert data[..dataLen] == packet;
    }

    ghost predicate Carries(packet: seq<byte>)
      reads this`data, this`dataLen, data
    {
      dataLen <= data.Length && data[..dataLen] == packet
    }

    /** Shifts the packet left over its first `n` octets. */
    method DropFirst(n: nat)
      requires n <= dataLen <= data.Length
      modifies this`dataLen, data
      ensures Carries(old(data[n..dataLen]))
    {
      forall i | 0 <= i < dataLen - n {
        data[i] := data[n + i];
      }
      dataLen := dataLen - n;
    }
  }

  class Queue {
    var head: Node?
    var tail: Node?

    /** The packets waiting, the oldest first. */
    ghost var contents: seq<seq<byte>>
    ghost var spine: seq<Node>
    ghost var Repr: set<object>

    /** Nodes are numbered and own their buffers, so no two are the same and no two share. */
    ghost var first: int
    ghost var owner: map<array<byte>, Node>

    ghost predicate Valid()
      reads this, Repr
      ensures Valid() ==> this in Repr
    {
      && this in Repr
      && |contents| == |spine|
      && (spine == [] ==> head == tail == null)
      && (spine != [] ==> head == spine[0] && tail == spine[|spine| - 1])
      && (forall i :: 0 <= i < |spine| ==> Member(i, spine[i]))
      && Linked(spine) && (tail != null ==> tail.next == null)
    }

    /** `n` is the `i`-th node: it carries the `i`-th packet in a buffer of its own. */
    ghost predicate Member(i: nat, n: Node)
      requires i < |contents|
      reads this, Repr
    {
      && n in Repr && n.data in Repr
      && n.number == first + i
      && n.data in owner && owner[n.data] == n
      && n.Carries(contents[i])
    }

    ghost static predicate Linked(nodes: seq<Node>)
      reads nodes
    {
      forall i, j :: 0 <= i < |nodes| && 0 <= j < |nodes| && j == i + 1 ==>
        nodes[i].next == nodes[j]
    }

    constructor ()
      ensures Valid() && fresh(Repr) && contents == []
    {
      head, tail := null, null;
      contents, spine, Repr := [], [], {this};
      first, owner := 0, map[];
    }

    method Enqueue(packet: seq<byte>)
      requires Valid()
      modifies Repr
      ensures Valid() && fresh(Repr - old(Repr))
      ensures contents == old(contents) + [packet]
    {
      var node := new Node(packet, first + |spine|);
      if head == null {
        head := node;
        tail := node;
      } else {
        tail.next := node;
        tail := node;
      }
      Append(packet, node);
    }

    /** The new last node joins the abstract queue. */
    ghost method Append(packet: seq<byte>, node: Node)
      requires this in Repr && |contents| == |spine|
      requires forall i :: 0 <= i < |spine| ==> Member(i, spine[i])
      requires Linked(spine + [node])
      requires node !in Repr && node.data !in Repr
      requires node.number == first + |spine| && node.Carries(packet)
      requires head == (spine + [node])[0] && tail == node && node.next == null
      modifies this
      ensures Valid() && Repr == old(Repr) + {node, node.data}
      ensures contents == old(contents) + [packet]
      ensures head == old(head) && tail == old(tail)
    {
      contents, spine := contents + [packet], spine + [node];
      Repr, owner := Repr + {node, node.data}, owner[node.data := node];
    }

    /** Waiting for the queue to be non-empty is the caller's part. */
    method Dequeue(dst: array<byte>, maxLen: nat, partial: bool) returns (packetLen: nat)
      requires Valid() && contents != []
      requires dst !in Repr && maxLen <= dst.Length
      modifies Repr, dst
      ensures Valid() && Repr <= old(Repr)
      ensures contents == Left(old(contents), maxLen, partial)
      ensures var taken := Taken(old(contents[0]), maxLen);
              dst[..|taken|] == taken && dst[|taken|..] == old(dst[|taken|..])
      ensures packetLen == if Splits(old(contents[0]), maxLen, partial) then maxLen
                           else |old(contents[0])|
    {
      assert spine[0].Carries(contents[0]);
      if head.dataLen > maxLen && partial {
        CopyOut(dst, head, maxLen);
        TrimHead(maxLen);
        packetLen := maxLen;
      } else {
        var node := UnlinkHead();
        CopyOut(dst, node, if maxLen < node.dataLen then maxLen else node.dataLen);
        packetLen := node.dataLen;
      }
    }

    /** Removes the first `n` octets of the head packet. */
    method TrimHead(n: nat)
      requires Valid() && contents != [] && n <= |contents[0]|
      modifies Repr
      ensures Valid() && Repr == old(Repr)
      ensures contents == [old(contents[0])[n..]] + old(contents)[1..]
    {
      assert spine[0].Carries(contents[0]);
      head.DropFirst(n);
      contents := [contents[0][n..]] + contents[1..];
      assert spine[0].Carries(contents[0]);
      assert forall i :: 0 < i < |spine| ==> spine[i].Carries(contents[i]);
    }

    method UnlinkHead() returns (node: Node)
      requires Valid() && contents != []
      modifies this
      ensures Valid() && Repr == old(Repr)
      ensures contents == old(contents)[1..]
      ensures node in Repr && node.data in Repr && node.Carries(old(contents[0]))
    {
      assert spine[0].Carries(contents[0]);
      node := head;
      head := head.next;
      if head == null {
        tail := null;
      }
      assert |spine| > 1 ==> head == spine[1];
      contents, spine, first := contents[1..], spine[1..], first + 1;
    }

    /** The copy to the caller's buffer. */
    method CopyOut(dst: array<byte>, node: Node, n: nat)
      requires n <= node.dataLen <= node.data.Length && n <= dst.Length
      requires dst != node.data
      modifies dst
      ensures dst[..n] == node.data[..n]
      ensures dst[n..] == old(dst[n..])
    {
      forall i | 0 <= i < n {
        dst[i] := node.data[i];
      }
    }

    /** Discards everything.  The flag says whether there was anything to discard: the
        test for a packet with octets in it comes too late to matter. */
    method FreeQueue() returns (result: bool)
      requires Valid()
      modifies this
      ensures Valid() && contents == []
      ensures result == (old(contents) != [])
    {
      result := head != null;
      var node := head;
      ghost var k := 0;
      while node != null
        invariant k <= |spine|
        invariant node == if k < |spine| then spine[k] else null
        invariant result == (spine != [])
        decreases |spine| - k
      {
        var next := node.next;
        if node.dataLen > 0 {
          result := true;
        }
        node := next;
        k := k + 1;
      }
      head, tail := null, null;
      contents, spine := [], [];
    }
  }

  /** One operation on a queue, as seen from outside. */
  datatype Op = Put(packet: seq<byte>) | Take(maxLen: nat, partial: bool)

  /** A queue with its history: all octets put in and all octets handed out. */
  datatype Log = Log(queue: seq<seq<byte>>, put: seq<byte>, taken: seq<byte>)

  predicate Enabled(s: Log, op: Op) {
    op.Take? ==> s.queue != []
  }

  function Next(s: Log, op: Op): Log
    requires Enabled(s, op)
  {
    match op
    case Put(p) => Log(s.queue + [p], s.put + p, s.taken)
    case Take(m, partial) => Log(Left(s.queue, m, partial), s.put, s.taken + Taken(s.queue[0], m))
  }

  /** A take that drops octets: the packet is longer than the buffer and is not split. */
  predicate Truncates(s: Log, op: Op)
    requires Enabled(s, op)
  {
    op.Take? && |s.queue[0]| > op.maxLen && !op.partial
  }

  predicate IsRun(s: Log, ops: seq<Op>)
    decreases |ops|
  {
    ops == [] || (Enabled(s, ops[0]) && IsRun(Next(s, ops[0]), ops[1..]))
  }

  function After(s: Log, ops: seq<Op>): Log
    requires IsRun(s, ops)
    decreases |ops|
  {
    if ops == [] then s else After(Next(s, ops[0]), ops[1..])
  }

  predicate EverTruncates(s: Log, ops: seq<Op>)
    requires IsRun(s, ops)
    decreases |ops|
  {
    ops != [] && (Truncates(s, ops[0]) || EverTruncates(Next(s, ops[0]), ops[1..]))
  }

  /** What was handed out, followed by what is still queued, is what was put in. */
  predicate Conserved(s: Log) {
    s.taken + Flatten(s.queue) == s.put
  }

  /** How many octets have gone missing. */
  function Missing(s: Log): int {
    |s.put| - |s.taken| - |Flatten(s.queue)|
  }

  lemma StepConserves(s: Log, op: Op)
    requires Enabled(s, op)
    ensures Truncates(s, op) ==> Missing(Next(s, op)) > Missing(s)
    ensures !Truncates(s, op) ==> Missing(Next(s, op)) == Missing(s)
    ensures !Truncates(s, op) && Conserved(s) ==> Conserved(Next(s, op))
  {
    match op
    case Put(p) =>
      FlattenSnoc(s.queue, p);
    case Take(m, partial) =>
      var p, rest := s.queue[0], s.queue[1..];
      assert s.queue == [p] + rest;
      FlattenAppend([p], rest);
      FlattenOne(p);
      if Splits(p, m, partial) {
        FlattenAppend([p[m..]], rest);
        FlattenOne(p[m..]);
        assert p == p[..m] + p[m..];
      }
  }

  /** The byte stream survives every mixture of operations exactly when no take truncates:
      in order, with nothing lost or doubled. */
  lemma {:induction false} StreamConservation(s: Log, ops: seq<Op>)
    requires IsRun(s, ops) && Conserved(s)
    ensures Conserved(After(s, ops)) <==> !EverTruncates(s, ops)
    decreases |ops|
  {
    if ops != [] {
      StepConserves(s, ops[0]);
      if Truncates(s, ops[0]) {
        MissingStays(Next(s, ops[0]), ops[1..]);
      } else {
        StreamConservation(Next(s, ops[0]), ops[1..]);
      }
    }
  }

  lemma {:induction false} MissingStays(s: Log, ops: seq<Op>)
    requires IsRun(s, ops)
    ensures Missing(After(s, ops)) >= Missing(s)
    decreases |ops|
  {
    if ops != [] {
      StepConserves(s, ops[0]);
      MissingStays(Next(s, ops[0]), ops[1..]);
    }
  }

  /** The queue after `k` takes with a buffer of `m` octets, splitting allowed, and what they gave. */
  function Drained(q: seq<seq<byte>>, m: nat, k: nat): (seq<seq<byte>>, seq<byte>)
    decreases k
  {
    if k == 0 || q == [] then (q, [])
    else
      var (rest, out) := Drained(Left(q, m, true), m, k - 1);
      (rest, Taken(q[0], m) + out)
  }

  /** Every take but the last fills the buffer: a packet is taken in as few takes as there can be,
      and only then the next one comes. */
  lemma {:induction false} HeadDrained(p: seq<byte>, rest: seq<seq<byte>>, m: nat, k: nat)
    requires m > 0 && k > 0
    ensures k * m < |p| ==> Drained([p] + rest, m, k) == ([p[k * m..]] + rest, p[..k * m])
    ensures (k - 1) * m < |p| <= k * m || (p == [] && k == 1) ==>
              Drained([p] + rest, m, k) == (rest, p)
    decreases k
  {
    var q := [p] + rest;
    assert q[1..] == rest;
    if |p| > m && k > 1 {
      var after := p[m..];
      assert (k - 1) * m + m == k * m && (k - 2) * m + m == (k - 1) * m;
      HeadDrained(after, rest, m, k - 1);
      assert p == p[..m] + after;
      if k * m < |p| {
        assert after[(k - 1) * m..] == p[k * m..];
        assert p[..m] + after[..(k - 1) * m] == p[..k * m];
      }
    } else if k > 1 {
      AtLeast(k, m);
    } else {
      OneTake(p, rest, m);
    }
  }

  lemma AtLeast(k: nat, m: nat)
    requires k > 1
    ensures (k - 1) * m >= m && k * m >= m
  {
    assert (k - 1) * m == m + (k - 2) * m;
  }

  lemma OneTake(p: seq<byte>, rest: seq<seq<byte>>, m: nat)
    requires m > 0
    ensures Drained([p] + rest, m, 1) == if |p| > m then ([p[m..]] + rest, p[..m]) else (rest, p)
  {
    var q := [p] + rest;
    assert q[1..] == rest;
    assert Drained(Left(q, m, true), m, 0) == (Left(q, m, true), []);
    assert Taken(p, m) + [] == Taken(p, m);
  }
}
