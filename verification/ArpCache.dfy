/** The ARP cache of the router: a table of 100 mappings and a linked list of requests, each
    with the packets that wait for its answer. */
module ArpCache {
  import opened Bytes
  import opened Options
  import S = ArpSpec

  class RequestNode {
    const ip: nat
    var sent: int
    var timesSent: nat
    var packets: seq<S.Packet>
    var next: RequestNode?

    constructor (ip: nat, next: RequestNode?)
      ensures AsRequest() == S.Request(ip, 0, 0, []) && this.next == next
    {
      this.ip := ip;
      this.sent, this.timesSent, this.packets := 0, 0, [];
      this.next := next;
    }

    function AsRequest(): S.Request
      reads this
    {
      S.Request(ip, sent, timesSent, packets)
    }

    /** `handle_arpreq`; what goes out on the wire is not part of the model. */
    method Handle(now: int)
      modifies this`sent, this`timesSent
      ensures AsRequest() == S.Handle(old(AsRequest()), now)
    {
      if now - sent > 1 {
        if timesSent >= 5 {
          // the waiting packets are walked through, without effect
        } else {
          if sent == 0 {
            sent := now;
            timesSent := 1;
          } else {
            sent := now;
            timesSent := timesSent + 1;
          }
        }
      }
    }
  }

  class Cache {
    const entries: array<S.Entry>
    var requests: RequestNode?
    ghost var spine: seq<RequestNode>
    ghost var reqs: seq<S.Request>
    ghost var Repr: set<RequestNode>

    ghost predicate Valid()
      reads this, entries, Repr
    {
      && entries.Length == S.SR_ARPCACHE_SZ
      && (forall i :: 0 <= i < |spine| ==> spine[i] in Repr)
      && ListValid(requests, spine, reqs)
    }

    static ghost predicate ListValid(head: RequestNode?, nodes: seq<RequestNode>,
                                     content: seq<S.Request>)
      reads nodes
    {
      && |content| == |nodes|
      && head == (if nodes == [] then null else nodes[0])
      && (forall i :: 0 <= i < |nodes| ==> nodes[i].AsRequest() == content[i])
      && (forall i, j :: 0 <= i < |nodes| && 0 <= j < |nodes| && j == i + 1 ==>
            nodes[i].next == nodes[j])
      && (nodes != [] ==> nodes[|nodes| - 1].next == null)
      && (forall i, j :: 0 <= i < j < |nodes| ==> nodes[i] != nodes[j])
    }

    constructor ()
      ensures Valid() && reqs == [] && fresh(entries) && Repr == {} && entries.Length == 100
      ensures forall ip :: S.LookupIn(entries[..], ip) == None
    {
      entries := new S.Entry[S.SR_ARPCACHE_SZ](_ => S.Entry([], 0, 0, false));
      requests := null;
      spine, reqs, Repr := [], [], {};
      new;
      forall ip
        ensures S.LookupIn(entries[..], ip) == None
      {
        NoneValid(entries[..], ip);
      }
    }

    /** `sr_arpcache_lookup`, which hands out a copy. */
    method Lookup(ip: nat) returns (copy: Option<S.Entry>)
      requires Valid()
      ensures copy == S.LookupIn(entries[..], ip)
    {
      copy := None;
      var i := 0;
      while i < S.SR_ARPCACHE_SZ
        invariant i <= S.SR_ARPCACHE_SZ
        invariant copy == S.LookupIn(entries[..i], ip)
      {
        assert entries[..i + 1][..i] == entries[..i];
        if entries[i].valid && entries[i].ip == ip {
          copy := Some(entries[i]);
        }
        i := i + 1;
      }
      assert entries[..i] == entries[..];
    }

    /** The scan for a request. */
    method Find(ip: nat) returns (prev: RequestNode?, req: RequestNode?, ghost i: nat)
      requires Valid()
      ensures i == S.IndexOf(reqs, ip)
      ensures |spine| == |reqs| && req == if i < |spine| then spine[i] else null
      ensures req != null ==> req.ip == ip && req.AsRequest() == reqs[i]
      ensures prev == if i == 0 then null else spine[i - 1]
    {
      prev, req, i := null, requests, 0;
      while req != null && req.ip != ip
        invariant i <= |spine| && i <= S.IndexOf(reqs, ip)
        invariant req == if i < |spine| then spine[i] else null
        invariant prev == if i == 0 then null else spine[i - 1]
        decreases |spine| - i
      {
        assert spine[i].AsRequest() == reqs[i];
        prev, req, i := req, req.next, i + 1;
      }
      if req != null {
        assert spine[i].AsRequest() == reqs[i];
      }
    }

    /** `sr_arpcache_queuereq`: the packet joins the request for its next hop, in front. */
    method QueueReq(ip: nat, packet: Option<S.Packet>) returns (req: RequestNode)
      requires Valid()
      modifies this, Repr
      ensures Valid() && fresh(Repr - old(Repr))
      ensures reqs == S.QueueIn(old(reqs), ip, packet)
      ensures req in spine && req.ip == ip
    {
      hide ListValid, S.IndexOf;
      var prev, found, i := Find(ip);
      if found == null {
        req := NewRequest(ip);
        i := 0;
      } else {
        req := found;
      }
      if packet.Some? {
        AddPacket(req, packet.value, i);
      }
    }

    /** A request that was never sent goes in front. */
    method NewRequest(ip: nat) returns (req: RequestNode)
      requires Valid()
      modifies this
      ensures Valid() && fresh(req) && req.ip == ip && Repr == old(Repr) + {req}
      ensures reqs == [S.Request(ip, 0, 0, [])] + old(reqs) && spine == [req] + old(spine)
    {
      req := new RequestNode(ip, requests);
      requests := req;
      spine, reqs := [req] + spine, [S.Request(ip, 0, 0, [])] + reqs;
      Repr := Repr + {req};
    }

    method AddPacket(req: RequestNode, packet: S.Packet, ghost i: nat)
      requires Valid() && i < |spine| && req == spine[i]
      modifies this`reqs, req`packets
      ensures Valid()
      ensures reqs == old(reqs)[i := S.WithPacket(old(reqs)[i], Some(packet))]
    {
      assert req.AsRequest() == reqs[i];
      req.packets := [packet] + req.packets;
      reqs := reqs[i := S.WithPacket(reqs[i], Some(packet))];
    }

    /** `sr_arpcache_insert`: the request for the address leaves the queue, for the caller to
        send its packets; the mapping is stored if there is room. */
    method Insert(mac: seq<byte>, ip: nat, now: int) returns (req: RequestNode?)
      requires Valid()
      modifies this`requests, this`spine, this`reqs, Repr, entries
      ensures Valid()
      ensures entries[..] == S.InsertIn(old(entries[..]), mac, ip, now)
      ensures var i := S.IndexOf(old(reqs), ip);
              if i == |old(reqs)| then req == null && reqs == old(reqs)
              else req != null && req.AsRequest() == old(reqs)[i]
                   && reqs == S.Without(old(reqs), i) && req !in spine
    {
      hide ListValid, S.IndexOf, S.InsertIn;
      var prev, found, i := Find(ip);
      req := found;
      if found != null {
        Unlink(prev, found, i);
      }
      StoreEntry(mac, ip, now);
    }

    /** The mapping goes into the first entry that is not valid, if there is one. */
    method StoreEntry(mac: seq<byte>, ip: nat, now: int)
      requires entries.Length == S.SR_ARPCACHE_SZ
      modifies entries
      ensures entries[..] == S.InsertIn(old(entries[..]), mac, ip, now)
    {
      var i := 0;
      ghost var before := entries[..];
      while i < S.SR_ARPCACHE_SZ && entries[i].valid
        invariant i <= S.SR_ARPCACHE_SZ
        invariant forall j :: 0 <= j < i ==> before[j].valid
      {
        i := i + 1;
      }
      assert i == S.FirstInvalid(before);
      if i != S.SR_ARPCACHE_SZ {
        entries[i] := S.Entry(mac, ip, now, true);
      }
    }

    /** Takes the `i`-th request out of the list; the node itself is not changed. */
    method Unlink(prev: RequestNode?, req: RequestNode, ghost i: nat)
      requires Valid()
      requires i < |spine| && req == spine[i]
      requires prev == if i == 0 then null else spine[i - 1]
      modifies this`requests, this`spine, this`reqs, Repr
      ensures Valid()
      ensures reqs == S.Without(old(reqs), i) && spine == old(spine)[..i] + old(spine)[i + 1..]
      ensures req.AsRequest() == old(reqs)[i] && req.next == old(req.next)
      ensures req !in spine
    {
      Relink(prev, req, i);
      spine, reqs := spine[..i] + spine[i + 1..], S.Without(reqs, i);
    }

    /** The pointers of the list, without its `i`-th node. */
    method Relink(prev: RequestNode?, req: RequestNode, ghost i: nat)
      requires ListValid(requests, spine, reqs) && i < |spine| && req == spine[i]
      requires prev == if i == 0 then null else spine[i - 1]
      modifies this`requests, spine
      ensures ListValid(requests, spine[..i] + spine[i + 1..], S.Without(reqs, i))
      ensures req.AsRequest() == reqs[i] && req.next == old(req.next)
    {
      assert i + 1 < |spine| ==> req.next == spine[i + 1];
      assert req.AsRequest() == reqs[i];
      if prev != null {
        prev.next := req.next;
      } else {
        requests := req.next;
      }
      ghost var rest, left := spine[..i] + spine[i + 1..], S.Without(reqs, i);
      assert forall q :: 0 <= q < |rest| ==>
               rest[q] == spine[if q < i then q else q + 1]
               && left[q] == reqs[if q < i then q else q + 1];
    }

    /** `sr_arpreq_destroy`: a request that is still queued is taken out; its packets are
        freed with it. */
    method Destroy(entry: RequestNode) returns (ghost freed: seq<S.Packet>)
      requires Valid()
      modifies this`requests, this`spine, this`reqs, Repr
      ensures Valid() && freed == old(entry.packets)
      ensures entry !in old(spine) ==> reqs == old(reqs) && spine == old(spine)
      ensures forall i :: 0 <= i < |old(spine)| && old(spine)[i] == entry ==>
                reqs == S.Without(old(reqs), i)
                && spine == old(spine)[..i] + old(spine)[i + 1..]
      ensures entry !in spine
    {
      freed := entry.packets;
      var prev: RequestNode?, req: RequestNode? := null, requests;
      ghost var i := 0;
      while req != null && req != entry
        invariant i <= |spine| && req == if i < |spine| then spine[i] else null
        invariant prev == if i == 0 then null else spine[i - 1]
        invariant forall j :: 0 <= j < i ==> spine[j] != entry
        decreases |spine| - i
      {
        prev, req, i := req, req.next, i + 1;
      }
      if req != null {
        Unlink(prev, req, i);
      }
    }

    /** `sr_arpcache_sweepreqs`, with the next pointer saved before a request may go.  Exactly the
        packets of the requests that are given up are freed. */
    method SweepReqs(now: int) returns (ghost freed: multiset<S.Packet>)
      requires Valid()
      modifies this`requests, this`spine, this`reqs, Repr
      ensures Valid()
      ensures reqs == S.Sweep(old(reqs), now)
      ensures freed == S.GivenUp(old(reqs), now)
    {
      var curr := requests;
      ghost var q: nat, p: nat := 0, 0;
      freed := multiset{};
      SweepStart(reqs, now);
      assert curr == if spine != [] then spine[0] else null;
      hide S.Sweep, S.GivenUp, S.Handle, S.Exhausted, ListValid;
      while curr != null
        invariant q <= |old(reqs)| && p <= |spine|
        invariant Valid() && |reqs| == |spine|
        invariant curr == if p < |spine| then spine[p] else null
        invariant reqs[..p] == S.Sweep(old(reqs)[..q], now)
        invariant freed == S.GivenUp(old(reqs)[..q], now)
        invariant reqs[p..] == old(reqs)[q..]
        decreases |old(reqs)| - q
      {
        var next := curr.next;
        SweepNext(old(reqs), q, now);
        SameRest(reqs, p, old(reqs), q);
        ghost var gone;
        p, gone := SweepOne(now, curr, p);
        freed := freed + multiset(gone);
        q := q + 1;
        curr := next;
      }
      assert |reqs[p..]| == 0;
      assert old(reqs)[..q] == old(reqs);
      assert reqs[..p] == reqs;
    }

    /** The body of the sweep. */
    method SweepOne(now: int, curr: RequestNode, ghost p: nat)
      returns (ghost p': nat, ghost freed: seq<S.Packet>)
      requires Valid() && p < |spine| && curr == spine[p]
      modifies this`requests, this`spine, this`reqs, Repr
      ensures Valid() && p' <= |spine| == |reqs|
      ensures var r := S.Handle(old(reqs)[p], now);
              reqs[..p'] == old(reqs)[..p] + (if S.Exhausted(r) then [] else [r])
      ensures freed == if S.Exhausted(S.Handle(old(reqs)[p], now)) then old(reqs)[p].packets else []
      ensures reqs[p'..] == old(reqs)[p + 1..]
      ensures old(curr.next) == if p' < |spine| then spine[p'] else null
    {
      hide ListValid, S.Handle;
      HandleAt(now, curr, p);
      p', freed := p + 1, [];
      if curr.timesSent >= 5 {
        freed := Destroy(curr);
        p' := p;
      }
    }

    method HandleAt(now: int, curr: RequestNode, ghost p: nat)
      requires Valid() && p < |spine| && curr == spine[p]
      modifies this`reqs, curr`sent, curr`timesSent
      ensures Valid() && reqs == old(reqs)[p := S.Handle(old(reqs)[p], now)]
      ensures curr.AsRequest() == reqs[p] && reqs[p].packets == old(reqs)[p].packets
      ensures |reqs| == |spine| == |old(reqs)|
      ensures curr.next == if p + 1 < |spine| then spine[p + 1] else null
    {
      assert curr.AsRequest() == reqs[p];
      curr.Handle(now);
      reqs := reqs[p := S.Handle(reqs[p], now)];
    }

    /** One round of `sr_arpcache_timeout`. */
    method Timeout(now: int) returns (ghost freed: multiset<S.Packet>)
      requires Valid()
      modifies this`requests, this`spine, this`reqs, Repr, entries
      ensures Valid()
      ensures entries[..] == S.ExpireIn(old(entries[..]), now)
      ensures reqs == S.Sweep(old(reqs), now)
      ensures freed == S.GivenUp(old(reqs), now)
    {
      var i := 0;
      while i < S.SR_ARPCACHE_SZ
        invariant 0 <= i <= S.SR_ARPCACHE_SZ
        invariant forall j :: 0 <= j < i ==> entries[j] == S.Aged(old(entries[j]), now)
        invariant forall j :: i <= j < S.SR_ARPCACHE_SZ ==> entries[j] == old(entries[j])
        modifies entries
      {
        if entries[i].valid && now - entries[i].added > S.SR_ARPCACHE_TO {
          entries[i] := entries[i].(valid := false);
        }
        i := i + 1;
      }
      assert entries[..] == S.ExpireIn(old(entries[..]), now);
      freed := SweepReqs(now);
    }
  }

  lemma SweepStart(reqs: seq<S.Request>, now: int)
    ensures S.Sweep(reqs[..0], now) == [] && S.GivenUp(reqs[..0], now) == multiset{}
  {
  }

  lemma SameRest(a: seq<S.Request>, p: nat, b: seq<S.Request>, q: nat)
    requires p < |a| && q <= |b| && a[p..] == b[q..]
    ensures q < |b| && a[p] == b[q] && a[p + 1..] == b[q + 1..]
  {
    assert a[p] == a[p..][0] && b[q] == b[q..][0];
    assert a[p + 1..] == a[p..][1..] && b[q + 1..] == b[q..][1..];
  }

  /** One more request of the queue. */
  lemma SweepNext(reqs: seq<S.Request>, q: nat, now: int)
    requires q < |reqs|
    ensures var r := S.Handle(reqs[q], now);
            && S.Sweep(reqs[..q + 1], now)
               == S.Sweep(reqs[..q], now) + (if S.Exhausted(r) then [] else [r])
            && S.GivenUp(reqs[..q + 1], now)
               == S.GivenUp(reqs[..q], now)
                  + multiset(if S.Exhausted(r) then reqs[q].packets else [])
  {
    assert reqs[..q + 1][..q] == reqs[..q];
  }

  lemma {:induction false} NoneValid(entries: seq<S.Entry>, ip: nat)
    requires forall i :: 0 <= i < |entries| ==> !entries[i].valid
    ensures S.LookupIn(entries, ip) == None
  {
    if entries != [] {
      NoneValid(entries[..|entries| - 1], ip);
    }
  }
}
