/** The backlog of a listening mysocket: a table of connection requests, and a linked list of
    those whose connection is established and waits for `myaccept`. */
module ListenQueue {
  import opened Bytes
  import Words

  /** A request; peer 0 stands for the zeroed address of an unused slot. */
  datatype Slot = Slot(peer: nat, sd: int)

  const FREE := Slot(0, -1)

  /** The slots in use of the table, and the completed slots in order of completion. */
  datatype View = View(slots: seq<Slot>, completed: seq<nat>)

  /** The number of requests. */
  function Count(slots: seq<Slot>): (n: nat)
    ensures n <= |slots|
  {
    if slots == [] then 0
    else Count(slots[..|slots| - 1]) + if slots[|slots| - 1].sd >= 0 then 1 else 0
  }

  lemma {:induction false} CountUpdate(slots: seq<Slot>, k: nat, s: Slot)
    requires k < |slots|
    ensures Count(slots[k := s]) == Count(slots) - (if slots[k].sd >= 0 then 1 else 0)
                                    + (if s.sd >= 0 then 1 else 0)
  {
    var n := |slots| - 1;
    if k == n {
      assert slots[k := s][..n] == slots[..n];
    } else {
      assert slots[k := s][..n] == slots[..n][k := s];
      CountUpdate(slots[..n], k, s);
    }
  }

  lemma {:induction false} CountFull(slots: seq<Slot>)
    requires Count(slots) < |slots|
    ensures exists k :: 0 <= k < |slots| && slots[k].sd < 0
  {
    var n := |slots| - 1;
    if slots[n].sd >= 0 {
      CountFull(slots[..n]);
      var k :| 0 <= k < n && slots[..n][k].sd < 0;
      assert slots[k].sd < 0;
    }
  }

  lemma {:induction false} CountZero(slots: seq<Slot>)
    requires forall k :: 0 <= k < |slots| ==> slots[k].sd < 0
    ensures Count(slots) == 0
  {
    if slots != [] {
      CountZero(slots[..|slots| - 1]);
    }
  }

  lemma {:induction false} CountPositive(slots: seq<Slot>, k: nat)
    requires k < |slots| && slots[k].sd >= 0
    ensures Count(slots) > 0
  {
    if k < |slots| - 1 {
      CountPositive(slots[..|slots| - 1], k);
    }
  }

  ghost predicate Busy(v: View, k: nat) {
    k < |v.slots| && v.slots[k].sd >= 0
  }

  /** No two requests of the same peer or for the same mysocket, and the completed list
      names each of its requests once. */
  ghost predicate Consistent(v: View) {
    && (forall k :: 0 <= k < |v.slots| ==>
          v.slots[k] == FREE || (v.slots[k].sd >= 0 && v.slots[k].peer != 0))
    && (forall j, k :: 0 <= j < k < |v.slots| && Busy(v, j) && Busy(v, k) ==>
          v.slots[j].peer != v.slots[k].peer && v.slots[j].sd != v.slots[k].sd)
    && (forall i :: 0 <= i < |v.completed| ==> Busy(v, v.completed[i]))
    && Distinct(v.completed)
  }

  ghost predicate Distinct(ks: seq<nat>) {
    forall i, j :: 0 <= i < j < |ks| ==> ks[i] != ks[j]
  }

  /** No request is for this mysocket. */
  ghost predicate Unused(v: View, sd: int) {
    forall k :: 0 <= k < |v.slots| && v.slots[k].sd >= 0 ==> v.slots[k].sd != sd
  }

  /** The peer already has a request. */
  ghost predicate Known(v: View, peer: nat) {
    exists k :: 0 <= k < |v.slots| && v.slots[k].peer == peer
  }

  /** The first free slot, or the size of the table. */
  function FirstFree(slots: seq<Slot>): (k: nat)
    ensures k <= |slots|
    ensures k < |slots| ==> slots[k].sd < 0
  {
    if slots == [] || slots[0].sd < 0 then 0 else 1 + FirstFree(slots[1..])
  }

  lemma {:induction false} FirstFreeIs(slots: seq<Slot>, k: nat)
    requires k < |slots| && slots[k].sd < 0
    ensures FirstFree(slots) == k <==> forall j :: 0 <= j < k ==> slots[j].sd >= 0
  {
    if k > 0 {
      if slots[0].sd >= 0 {
        FirstFreeIs(slots[1..], k - 1);
        assert forall j :: 0 <= j < k - 1 ==> slots[1..][j] == slots[j + 1];
        assert forall j :: 0 < j < k ==> slots[j] == slots[1..][j - 1];
      }
    }
  }

  /** Whether a SYN gets a slot, given the mysocket there is for it. */
  ghost predicate Admitted(v: View, peer: nat, newSd: int) {
    !Known(v, peer) && FirstFree(v.slots) < |v.slots| && newSd >= 0
  }

  ghost function AfterSyn(v: View, peer: nat, newSd: int): View {
    if Admitted(v, peer, newSd) then v.(slots := v.slots[FirstFree(v.slots) := Slot(peer, newSd)])
    else v
  }

  /** A SYN of a new peer gets the first empty slot exactly if there is one, and a mysocket for it;
      then one more request is counted, and otherwise nothing changes. */
  lemma SynAdmitted(v: View, peer: nat, newSd: int)
    ensures var w := AfterSyn(v, peer, newSd);
            if !Known(v, peer) && Count(v.slots) < |v.slots| && newSd >= 0 then
              && Known(w, peer) && Count(w.slots) == Count(v.slots) + 1 && w.completed == v.completed
              && exists k: nat :: k < |v.slots| && v.slots[k].sd < 0
                   && (forall j :: 0 <= j < k ==> v.slots[j].sd >= 0)
                   && w.slots == v.slots[k := Slot(peer, newSd)]
            else w == v
  {
    var k := FirstFree(v.slots);
    if Count(v.slots) < |v.slots| {
      CountFull(v.slots);
      var j :| 0 <= j < |v.slots| && v.slots[j].sd < 0;
      FirstFreeBelow(v.slots, j);
      FirstFreeIs(v.slots, k);
      CountUpdate(v.slots, k, Slot(peer, newSd));
      if Admitted(v, peer, newSd) {
        var w := AfterSyn(v, peer, newSd);
        assert w.slots[k].peer == peer;
      }
    } else {
      FullTable(v.slots);
    }
  }

  lemma {:induction false} FirstFreeBelow(slots: seq<Slot>, j: nat)
    requires j < |slots| && slots[j].sd < 0
    ensures FirstFree(slots) <= j
  {
    if j > 0 && slots[0].sd >= 0 {
      FirstFreeBelow(slots[1..], j - 1);
    }
  }

  /** `myaccept` takes the connection that completed first and frees its slot. */
  function AfterAccept(v: View): View
    requires v.completed != [] && v.completed[0] < |v.slots|
  {
    View(v.slots[v.completed[0] := FREE], v.completed[1..])
  }

  /** Any sequence of SYNs, completions and accepts keeps the table consistent. */
  lemma SynConsistent(v: View, peer: nat, newSd: int)
    requires Consistent(v) && peer != 0
    requires Unused(v, newSd)
    ensures Consistent(AfterSyn(v, peer, newSd))
  {
    if Admitted(v, peer, newSd) {
      var w := AfterSyn(v, peer, newSd);
      assert forall k :: 0 <= k < |v.slots| ==> v.slots[k].peer != peer;
      assert forall k: nat :: Busy(v, k) ==> Busy(w, k);
    }
  }

  lemma CompleteConsistent(v: View, k: nat)
    requires Consistent(v) && Busy(v, k) && k !in v.completed
    ensures Consistent(v.(completed := v.completed + [k]))
  {
    var w := v.(completed := v.completed + [k]);
    assert forall j: nat :: Busy(v, j) <==> Busy(w, j);
  }

  lemma AcceptConsistent(v: View)
    requires Consistent(v) && v.completed != []
    ensures Busy(v, v.completed[0]) && Consistent(AfterAccept(v))
  {
    var w := AfterAccept(v);
    assert forall k: nat :: k != v.completed[0] ==> (Busy(v, k) <==> Busy(w, k));
  }

  /** The header flag of a segment that asks for a connection. */
  predicate IsSyn(packet: seq<byte>) {
    |packet| >= 20 && packet[13] / 2 % 2 == 1
  }

  /** It is the second bit of the fourteenth octet, in a packet with a whole header. */
  lemma SynFlag(packet: seq<byte>)
    ensures IsSyn(packet) <==> |packet| >= 20 && Words.Bit(packet[13], 1)
  {
    if |packet| >= 20 {
      assert Words.Bit(packet[13], 1) == Words.Bit(packet[13] / 2, 0);
    }
  }

  class Completed {
    const request: nat
    var next: Completed?

    constructor (request: nat)
      ensures this.request == request && next == null
    {
      this.request := request;
      next := null;
    }
  }

  class Backlog {
    var slots: array<Slot>
    var maxLen: nat
    var curLen: nat
    var completedQueue: Completed?
    ghost var spine: seq<Completed>
    ghost var completed: seq<nat>

    ghost predicate Shape()
      reads this, slots, spine
    {
      && maxLen <= slots.Length
      && |spine| == |completed|
      && completedQueue == (if spine == [] then null else spine[0])
      && (forall i :: 0 <= i < |spine| ==> spine[i].request == completed[i])
      && Linked(spine)
      && (spine != [] ==> spine[|spine| - 1].next == null)
    }

    static ghost predicate Linked(nodes: seq<Completed>)
      reads nodes
    {
      forall i, j :: 0 <= i < |nodes| && 0 <= j < |nodes| && j == i + 1 ==>
        nodes[i].next == nodes[j]
    }

    ghost function AsView(): View
      requires Shape()
      reads this, slots, spine
    {
      View(slots[..maxLen], completed)
    }

    ghost predicate Valid()
      reads this, slots, spine
    {
      Shape() && Consistent(AsView()) && curLen == Count(slots[..maxLen])
    }

    constructor ()
      ensures Valid() && AsView() == View([], [])
    {
      slots := new Slot[0];
      maxLen, curLen := 0, 0;
      completedQueue := null;
      spine, completed := [], [];
    }

    /** `_mysock_set_backlog`.  The slots keep their place when the table grows.  The queue is
        consistent afterwards exactly if no request is in a slot that is cut off. */
    method SetBacklog(backlog: nat)
      requires Valid()
      modifies this
      ensures Shape() && maxLen == backlog + 1 && curLen == old(curLen)
      ensures AsView() == Resized(old(AsView()), backlog + 1)
      ensures forall k :: 0 <= k < maxLen ==>
                slots[k] == if k < old(maxLen) then old(slots[k]) else FREE
      ensures Valid() <==> CutsNothing(old(AsView()), backlog + 1)
    {
      hide Consistent, Count, CutsNothing;
      var newLen := backlog + 1;
      ghost var v := AsView();
      ResizedConsistent(v, newLen);
      if newLen > maxLen {
        slots := Grown(newLen);
      }
      maxLen := newLen;
      assert slots[..maxLen] == Resized(v, newLen).slots;
    }

    /** The longer table: the old slots in their places, then unused ones. */
    method Grown(newLen: nat) returns (grown: array<Slot>)
      requires maxLen <= slots.Length && maxLen <= newLen
      ensures fresh(grown) && grown[..] == slots[..maxLen] + seq(newLen - maxLen, i => FREE)
    {
      grown := new Slot[newLen];
      var k := 0;
      while k < maxLen
        invariant k <= maxLen && grown[..k] == slots[..k]
        modifies grown
      {
        grown[k] := slots[k];
        k := k + 1;
      }
      while k < newLen
        invariant maxLen <= k <= newLen
        invariant grown[..maxLen] == slots[..maxLen]
        invariant forall j :: maxLen <= j < k ==> grown[j] == FREE
        modifies grown
      {
        grown[k] := FREE;
        k := k + 1;
      }
    }

    /** Whether the SYN repeats a request that is already queued. */
    method IsRetransmission(peer: nat) returns (found: bool)
      requires Shape()
      ensures found <==> Known(AsView(), peer)
    {
      var k := 0;
      while k < maxLen
        invariant k <= maxLen
        invariant forall j :: 0 <= j < k ==> slots[j].peer != peer
      {
        if slots[k].peer == peer {
          assert AsView().slots[k].peer == peer;
          return true;
        }
        k := k + 1;
      }
      return false;
    }

    /** `_mysock_enqueue_connection`.  `newSd` is what `_mysock_new_mysocket` would return:
        a descriptor that is not in use, or a negative number. */
    method Enqueue(packet: seq<byte>, peer: nat, newSd: int) returns (queued: bool)
      requires Valid() && peer != 0
      requires Unused(AsView(), newSd)
      modifies this`curLen, slots
      ensures Valid()
      ensures queued == (IsSyn(packet) && Admitted(old(AsView()), peer, newSd))
      ensures AsView() == if IsSyn(packet) then AfterSyn(old(AsView()), peer, newSd)
                          else old(AsView())
    {
      if |packet| < 20 || packet[13] / 2 % 2 == 0 {
        return false;
      }
      hide Consistent, Count, Known, Unused;
      ghost var v := AsView();
      var found := IsRetransmission(peer);
      if found {
        return false;
      }
      if curLen < maxLen {
        var k := FindFree();
        if newSd < 0 {
          slots[k] := FREE;
          assert slots[..maxLen] == v.slots;
          return false;
        }
        Occupy(k, peer, newSd);
        return true;
      }
      FullTable(v.slots);
      return false;
    }

    /** The slot is taken and counted. */
    method Occupy(k: nat, peer: nat, newSd: int)
      requires Valid() && peer != 0
      requires Unused(AsView(), newSd)
      requires k == FirstFree(slots[..maxLen]) && Admitted(AsView(), peer, newSd)
      modifies this`curLen, slots
      ensures Valid() && AsView() == AfterSyn(old(AsView()), peer, newSd)
    {
      ghost var v := AsView();
      hide Consistent, Count, Known, FirstFree, Unused;
      SynConsistent(v, peer, newSd);
      CountUpdate(v.slots, k, Slot(peer, newSd));
      curLen := curLen + 1;
      Fill(k, Slot(peer, newSd));
    }

    /** Writes one slot. */
    method Fill(k: nat, slot: Slot)
      requires Shape() && k < maxLen
      modifies slots
      ensures Shape() && AsView() == View(old(slots[..maxLen])[k := slot], completed)
    {
      ghost var before := slots[..maxLen];
      slots[k] := slot;
      assert slots[..maxLen] == before[k := slot];
    }

    /** The scan for an empty slot; it always succeeds below the limit. */
    method FindFree() returns (k: nat)
      requires Valid() && curLen < maxLen
      ensures k < maxLen && k == FirstFree(slots[..maxLen])
    {
      ghost var s := slots[..maxLen];
      CountFull(s);
      ghost var empty: nat :| empty < |s| && s[empty].sd < 0;
      k := 0;
      while slots[k].sd >= 0
        invariant k <= empty
        invariant forall j :: 0 <= j < k ==> slots[j].sd >= 0
        decreases empty - k
      {
        k := k + 1;
      }
      FirstFreeIs(s, k);
    }

    /** `_mysock_passive_connection_complete`: finds the slot of the mysocket and appends it
        to the completed list. */
    method Complete(sd: int) returns (k: nat)
      requires Valid() && sd >= 0
      requires exists j: nat :: Busy(AsView(), j) && AsView().slots[j].sd == sd
                                && j !in completed
      modifies this`completedQueue, this`spine, this`completed, spine
      ensures Valid()
      ensures Busy(old(AsView()), k) && old(AsView()).slots[k].sd == sd && k !in old(completed)
      ensures AsView() == old(AsView()).(completed := old(completed) + [k])
    {
      ghost var v := AsView();
      ghost var j: nat :| Busy(v, j) && v.slots[j].sd == sd && j !in completed;
      k := 0;
      while slots[k].sd != sd
        invariant k <= j
        decreases j - k
      {
        k := k + 1;
      }
      assert Busy(v, k);
      assert k == j;
      CompleteConsistent(v, k);
      var entry := new Completed(k);
      AppendCompleted(entry);
    }

    /** Walks to the end of the completed list. */
    method AppendCompleted(entry: Completed)
      requires Shape() && entry.next == null && entry !in spine
      modifies this`completedQueue, this`spine, this`completed, spine
      ensures Shape()
      ensures completed == old(completed) + [entry.request]
    {
      if completedQueue == null {
        completedQueue := entry;
      } else {
        var tail: Completed := completedQueue;
        ghost var i := 0;
        while tail.next != null
          invariant i < |spine| && tail == spine[i]
          invariant i + 1 < |spine| ==> tail.next == spine[i + 1]
          decreases |spine| - i
        {
          assert i + 1 < |spine|;
          tail := tail.next;
          i := i + 1;
        }
        assert i == |spine| - 1;
        tail.next := entry;
      }
      spine, completed := spine + [entry], completed + [entry.request];
    }

    /** `_mysock_dequeue_connection`, once there is a completed connection. */
    method Accept() returns (sd: int)
      requires Valid() && completed != []
      modifies this`completedQueue, this`spine, this`completed, this`curLen, slots
      ensures Valid()
      ensures Busy(old(AsView()), old(completed[0]))
      ensures sd == old(slots[completed[0]].sd)
      ensures AsView() == AfterAccept(old(AsView()))
    {
      hide Consistent, Count;
      ghost var v := AsView();
      AcceptConsistent(v);
      var r := completedQueue;
      assert |spine| > 1 ==> r.next == spine[1];
      completedQueue := r.next;
      sd := slots[r.request].sd;
      CountUpdate(v.slots, r.request, FREE);
      CountPositive(v.slots, r.request);
      slots[r.request] := FREE;
      assert curLen > 0;
      curLen := curLen - 1;
      spine, completed := spine[1..], completed[1..];
      assert slots[..maxLen] == v.slots[r.request := FREE];
    }

    /** `_mysock_close_passive_socket`: every request that was not passed up is closed, the
        established ones included, and the queue is gone. */
    method Close() returns (closed: seq<int>)
      requires Valid()
      modifies this
      ensures Valid() && AsView() == View([], [])
      ensures closed == Queued(old(AsView().slots))
    {
      closed := [];
      var k := 0;
      while k < maxLen
        invariant k <= maxLen && closed == Queued(slots[..k])
      {
        assert slots[..k + 1][..k] == slots[..k];
        if slots[k].sd != -1 {
          closed := closed + [slots[k].sd];
        }
        k := k + 1;
      }
      maxLen, curLen := 0, 0;
      completedQueue := null;
      spine, completed := [], [];
    }
  }

  /** The mysockets of all requests, in the order of the table. */
  function Queued(slots: seq<Slot>): seq<int> {
    if slots == [] then []
    else Queued(slots[..|slots| - 1])
         + if slots[|slots| - 1].sd != -1 then [slots[|slots| - 1].sd] else []
  }

  /** `Queued` names exactly the requests of a consistent table, as many as are counted. */
  lemma {:induction false} QueuedIsAll(slots: seq<Slot>, sd: int)
    requires forall k :: 0 <= k < |slots| ==> slots[k] == FREE || slots[k].sd >= 0
    ensures |Queued(slots)| == Count(slots)
    ensures sd in Queued(slots) <==> sd >= 0 && exists k :: 0 <= k < |slots| && slots[k].sd == sd
  {
    if slots != [] {
      var init := slots[..|slots| - 1];
      QueuedIsAll(init, sd);
      assert forall k :: 0 <= k < |init| ==> slots[k] == init[k];
    }
  }

  /** The table with a new limit. */
  function Resized(v: View, newLen: nat): View {
    v.(slots := if newLen < |v.slots| then v.slots[..newLen]
                else v.slots + seq(newLen - |v.slots|, i => FREE))
  }

  /** No request has a slot above the new limit. */
  ghost predicate CutsNothing(v: View, newLen: nat) {
    forall k :: newLen <= k < |v.slots| ==> v.slots[k].sd < 0
  }

  /** The table stays consistent and keeps its count exactly if no request is cut off. */
  lemma ResizedConsistent(v: View, newLen: nat)
    requires Consistent(v)
    ensures Consistent(Resized(v, newLen)) && Count(Resized(v, newLen).slots) == Count(v.slots)
            <==> CutsNothing(v, newLen)
    ensures CutsNothing(v, newLen) ==>
              forall k: nat :: Busy(v, k) <==> Busy(Resized(v, newLen), k)
  {
    var w := Resized(v, newLen);
    if newLen < |v.slots| {
      CutCount(v.slots, newLen);
      hide Count;
      if CutsNothing(v, newLen) {
        assert forall k: nat :: Busy(v, k) <==> Busy(w, k);
      }
    } else {
      CountPadded(v.slots, newLen - |v.slots|);
      hide Count;
      assert forall k: nat :: Busy(v, k) <==> Busy(w, k);
    }
  }

  lemma CutCount(slots: seq<Slot>, n: nat)
    requires n <= |slots|
    ensures Count(slots[..n]) == Count(slots) <==> forall k :: n <= k < |slots| ==> slots[k].sd < 0
  {
    hide Count;
    assert slots == slots[..n] + slots[n..];
    CountAppend(slots[..n], slots[n..]);
    if k :| n <= k < |slots| && slots[k].sd >= 0 {
      CountPositive(slots[n..], k - n);
    } else {
      CountZero(slots[n..]);
    }
  }

  lemma {:induction false} CountAppend(a: seq<Slot>, b: seq<Slot>)
    ensures Count(a + b) == Count(a) + Count(b)
  {
    if b == [] {
      assert a + b == a;
    } else {
      assert (a + b)[..|a + b| - 1] == a + b[..|b| - 1];
      CountAppend(a, b[..|b| - 1]);
    }
  }

  lemma CountPadded(slots: seq<Slot>, n: nat)
    ensures Count(slots + seq(n, i => FREE)) == Count(slots)
  {
    CountAppend(slots, seq(n, i => FREE));
    CountZero(seq(n, i => FREE));
  }

  /** A full table has no free slot. */
  lemma {:induction false} FullTable(slots: seq<Slot>)
    requires Count(slots) == |slots|
    ensures FirstFree(slots) == |slots|
  {
    var k := FirstFree(slots);
    if k < |slots| {
      CountUpdate(slots, k, Slot(1, 1));
    }
  }
}
