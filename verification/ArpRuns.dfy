/** Whole runs of the ARP cache: no packet is lost between the queue, the caller and the
    garbage; transmissions keep their distance and stop; mappings are fresh. */
module ArpRuns {
  import opened Bytes
  import opened ArpSpec
  import opened Options

  // ------------------------------------------------------------------ packets

  /** All packets that wait for an answer. */
  function Waiting(reqs: seq<Request>): multiset<Packet> {
    if reqs == [] then multiset{}
    else Waiting(reqs[..|reqs| - 1]) + multiset(reqs[|reqs| - 1].packets)
  }

  lemma {:induction false} WaitingAppend(a: seq<Request>, b: seq<Request>)
    ensures Waiting(a + b) == Waiting(a) + Waiting(b)
  {
    if b == [] {
      assert a + b == a;
    } else {
      assert (a + b)[..|a + b| - 1] == a + b[..|b| - 1];
      WaitingAppend(a, b[..|b| - 1]);
    }
  }

  lemma WaitingOne(r: Request)
    ensures Waiting([r]) == multiset(r.packets)
  {
    assert Waiting([r]) == Waiting([r][..0]) + multiset(r.packets);
  }

  lemma WaitingSplit(reqs: seq<Request>, i: nat)
    requires i < |reqs|
    ensures Waiting(reqs) == Waiting(Without(reqs, i)) + multiset(reqs[i].packets)
  {
    hide Waiting;
    var a, b, r := reqs[..i], reqs[i + 1..], reqs[i];
    assert reqs == a + ([r] + b);
    WaitingAppend(a, [r] + b);
    WaitingAppend([r], b);
    WaitingOne(r);
    WaitingAppend(a, b);
  }

  /** A request that gains the packets `more` adds them to all that wait. */
  lemma WaitingUpdate(reqs: seq<Request>, i: nat, r: Request, more: seq<Packet>)
    requires i < |reqs| && r.packets == more + reqs[i].packets
    ensures Waiting(reqs[i := r]) == Waiting(reqs) + multiset(more)
  {
    hide Waiting;
    WaitingSplit(reqs, i);
    WaitingSplit(reqs[i := r], i);
    var rest := Waiting(Without(reqs, i));
    assert Without(reqs[i := r], i) == Without(reqs, i);
    assert multiset(r.packets) == multiset(reqs[i].packets) + multiset(more);
    assert rest + (multiset(reqs[i].packets) + multiset(more))
        == rest + multiset(reqs[i].packets) + multiset(more);
  }

  lemma {:induction false} SweepKeeps(reqs: seq<Request>, now: int)
    ensures Waiting(reqs) == Waiting(Sweep(reqs, now)) + GivenUp(reqs, now)
  {
    if reqs != [] {
      var init, r := reqs[..|reqs| - 1], Handle(reqs[|reqs| - 1], now);
      SweepKeeps(init, now);
      if !Exhausted(r) {
        WaitingAppend(Sweep(init, now), [r]);
        WaitingOne(r);
      } else {
        assert Sweep(init, now) + [] == Sweep(init, now);
      }
    }
  }

  function Reversed<T>(s: seq<T>): seq<T> {
    if s == [] then [] else [s[|s| - 1]] + Reversed(s[..|s| - 1])
  }

  datatype QueueOp =
    | Queue(ip: nat, packet: Option<Packet>)
    | Answer(ip: nat)               // sr_arpcache_insert
    | Touch(ip: nat, now: int)      // handle_arpreq, called for one request
    | SweepAll(now: int)
    | Drop(ip: nat)                 // sr_arpreq_destroy of a queued request

  /** The queue with the fate of every packet, and per address the packets in the order in
      which they came since the request was made. */
  datatype QueueLog = QueueLog(reqs: seq<Request>, arrived: map<nat, seq<Packet>>,
                               queued: multiset<Packet>, handed: multiset<Packet>,
                               freed: multiset<Packet>)

  const EMPTY := QueueLog([], map[], multiset{}, multiset{}, multiset{})

  function PacketsOf(p: Option<Packet>): seq<Packet> {
    if p.Some? then [p.value] else []
  }

  function QueueStep(s: QueueLog, op: QueueOp): QueueLog {
    match op
    case Queue(ip, p) =>
      var before := if IndexOf(s.reqs, ip) < |s.reqs| && ip in s.arrived then s.arrived[ip] else [];
      s.(reqs := QueueIn(s.reqs, ip, p), queued := s.queued + multiset(PacketsOf(p)),
         arrived := s.arrived[ip := before + PacketsOf(p)])
    case Answer(ip) =>
      var i := IndexOf(s.reqs, ip);
      if i == |s.reqs| then s
      else s.(reqs := Without(s.reqs, i), handed := s.handed + multiset(s.reqs[i].packets))
    case Touch(ip, now) =>
      var i := IndexOf(s.reqs, ip);
      if i == |s.reqs| then s else s.(reqs := s.reqs[i := Handle(s.reqs[i], now)])
    case SweepAll(now) =>
      s.(reqs := Sweep(s.reqs, now), freed := s.freed + GivenUp(s.reqs, now))
    case Drop(ip) =>
      var i := IndexOf(s.reqs, ip);
      if i == |s.reqs| then s
      else s.(reqs := Without(s.reqs, i), freed := s.freed + multiset(s.reqs[i].packets))
  }

  /** One request per address. */
  predicate DistinctIps(reqs: seq<Request>) {
    forall i, j :: 0 <= i < j < |reqs| ==> reqs[i].ip != reqs[j].ip
  }

  predicate NewestFirst(reqs: seq<Request>, arrived: map<nat, seq<Packet>>) {
    forall i :: 0 <= i < |reqs| ==>
      reqs[i].ip in arrived && reqs[i].packets == Reversed(arrived[reqs[i].ip])
  }

  predicate QueueInv(s: QueueLog) {
    && DistinctIps(s.reqs) && NewestFirst(s.reqs, s.arrived)
    && s.queued == Waiting(s.reqs) + s.handed + s.freed
  }

  /** A sweep only removes requests, and changes neither address nor packets of the rest. */
  lemma {:induction false} SweepSubsequence(reqs: seq<Request>, now: int, r: Request)
    ensures r in Sweep(reqs, now) ==>
              exists i :: 0 <= i < |reqs| && r == Handle(reqs[i], now) && !Exhausted(r)
  {
    if reqs != [] && r in Sweep(reqs, now) {
      var n := |reqs| - 1;
      if r in Sweep(reqs[..n], now) {
        SweepSubsequence(reqs[..n], now, r);
        var i :| 0 <= i < n && r == Handle(reqs[..n][i], now) && !Exhausted(r);
        assert r == Handle(reqs[i], now);
      } else {
        assert r == Handle(reqs[n], now);
      }
    }
  }

  /** A sweep keeps the order: it treats the front of the queue, and then the rest. */
  lemma {:induction false} SweepAppend(a: seq<Request>, b: seq<Request>, now: int)
    ensures Sweep(a + b, now) == Sweep(a, now) + Sweep(b, now)
  {
    if b == [] {
      assert a + b == a;
    } else {
      assert (a + b)[..|a + b| - 1] == a + b[..|b| - 1];
      SweepAppend(a, b[..|b| - 1], now);
    }
  }

  lemma {:induction false} SweepDistinct(reqs: seq<Request>, now: int)
    requires DistinctIps(reqs)
    ensures DistinctIps(Sweep(reqs, now))
  {
    if reqs != [] {
      var n := |reqs| - 1;
      var kept := Sweep(reqs[..n], now);
      SweepDistinct(reqs[..n], now);
      forall j | 0 <= j < |kept|
        ensures kept[j].ip != reqs[n].ip
      {
        SweepSubsequence(reqs[..n], now, kept[j]);
      }
    }
  }

  lemma SweepNewestFirst(reqs: seq<Request>, arrived: map<nat, seq<Packet>>, now: int)
    requires NewestFirst(reqs, arrived)
    ensures NewestFirst(Sweep(reqs, now), arrived)
  {
    var kept := Sweep(reqs, now);
    forall j | 0 <= j < |kept|
      ensures kept[j].ip in arrived && kept[j].packets == Reversed(arrived[kept[j].ip])
    {
      SweepSubsequence(reqs, now, kept[j]);
    }
  }

  predicate NoneFor(reqs: seq<Request>, ip: nat) {
    forall i :: 0 <= i < |reqs| ==> reqs[i].ip != ip
  }

  /** What queueing does to the queue: a first packet puts a request in front that was never sent; a
      later one joins its request in front of the others, and the request keeps when and how often it
      was sent; no other request changes. */
  lemma Queued(reqs: seq<Request>, ip: nat, p: Option<Packet>)
    requires DistinctIps(reqs)
    ensures NoneFor(reqs, ip) ==> QueueIn(reqs, ip, p) == [Request(ip, 0, 0, PacketsOf(p))] + reqs
    ensures forall i :: 0 <= i < |reqs| && reqs[i].ip == ip ==>
              |QueueIn(reqs, ip, p)| == |reqs|
              && QueueIn(reqs, ip, p)[i]
                 == Request(ip, reqs[i].sent, reqs[i].timesSent, PacketsOf(p) + reqs[i].packets)
              && forall j :: 0 <= j < |reqs| && j != i ==> QueueIn(reqs, ip, p)[j] == reqs[j]
  {
    var k := IndexOf(reqs, ip);
    assert NoneFor(reqs, ip) <==> k == |reqs|;
    assert forall i :: 0 <= i < |reqs| && reqs[i].ip == ip ==> i == k;
    assert k < |reqs| && p == None ==> PacketsOf(p) + reqs[k].packets == reqs[k].packets;
    assert WithPacket(Request(ip, 0, 0, []), p).packets == PacketsOf(p);
  }

  lemma QueueKeeps(reqs: seq<Request>, ip: nat, p: Option<Packet>)
    requires DistinctIps(reqs)
    ensures DistinctIps(QueueIn(reqs, ip, p))
    ensures Waiting(QueueIn(reqs, ip, p)) == Waiting(reqs) + multiset(PacketsOf(p))
  {
    hide Waiting;
    var i := IndexOf(reqs, ip);
    if i < |reqs| {
      WaitingUpdate(reqs, i, WithPacket(reqs[i], p), PacketsOf(p));
    } else {
      var r := WithPacket(Request(ip, 0, 0, []), p);
      assert r.packets == PacketsOf(p);
      WaitingAppend([r], reqs);
      WaitingOne(r);
    }
  }

  lemma QueueNewestFirst(reqs: seq<Request>, arrived: map<nat, seq<Packet>>, ip: nat,
                         p: Option<Packet>)
    requires DistinctIps(reqs) && NewestFirst(reqs, arrived)
    ensures var i := IndexOf(reqs, ip);
            var before := if i < |reqs| then arrived[ip] else [];
            NewestFirst(QueueIn(reqs, ip, p), arrived[ip := before + PacketsOf(p)])
  {
    var i := IndexOf(reqs, ip);
    if i < |reqs| {
      ReversedNext(arrived[ip], p);
      UpdatedNewestFirst(reqs, arrived, i, WithPacket(reqs[i], p), arrived[ip] + PacketsOf(p));
    } else {
      ReversedNext([], p);
      AddedNewestFirst(reqs, arrived, WithPacket(Request(ip, 0, 0, []), p), [] + PacketsOf(p));
    }
  }

  lemma UpdatedNewestFirst(reqs: seq<Request>, arrived: map<nat, seq<Packet>>, i: nat,
                           r: Request, all: seq<Packet>)
    requires DistinctIps(reqs) && NewestFirst(reqs, arrived) && i < |reqs|
    requires r.ip == reqs[i].ip && r.packets == Reversed(all)
    ensures NewestFirst(reqs[i := r], arrived[r.ip := all])
  {
    hide Reversed;
    assert forall j :: 0 <= j < |reqs| && j != i ==> reqs[j].ip != r.ip;
  }

  lemma AddedNewestFirst(reqs: seq<Request>, arrived: map<nat, seq<Packet>>, r: Request,
                         all: seq<Packet>)
    requires NewestFirst(reqs, arrived) && r.packets == Reversed(all)
    requires forall j :: 0 <= j < |reqs| ==> reqs[j].ip != r.ip
    ensures NewestFirst([r] + reqs, arrived[r.ip := all])
  {
    hide Reversed;
  }

  lemma QueuePacketInv(s: QueueLog, ip: nat, p: Option<Packet>)
    requires QueueInv(s)
    ensures QueueInv(QueueStep(s, Queue(ip, p)))
  {
    hide Waiting, NewestFirst, DistinctIps;
    QueueKeeps(s.reqs, ip, p);
    QueueNewestFirst(s.reqs, s.arrived, ip, p);
    ArrivedBefore(s, ip);
    var w, m := Waiting(s.reqs), multiset(PacketsOf(p));
    assert w + s.handed + s.freed + m == w + m + s.handed + s.freed;
  }

  lemma ArrivedBefore(s: QueueLog, ip: nat)
    requires NewestFirst(s.reqs, s.arrived)
    ensures IndexOf(s.reqs, ip) < |s.reqs| ==> ip in s.arrived
  {
  }

  lemma ReversedNext(a: seq<Packet>, p: Option<Packet>)
    ensures Reversed(a + PacketsOf(p)) == PacketsOf(p) + Reversed(a)
    ensures Reversed<Packet>([]) == []
  {
    if p.Some? {
      assert (a + [p.value])[..|a|] == a;
    } else {
      assert a + [] == a;
    }
  }

  lemma QueueStepInv(s: QueueLog, op: QueueOp)
    requires QueueInv(s)
    ensures QueueInv(QueueStep(s, op))
  {
    match op
    case Queue(ip, p) => QueuePacketInv(s, ip, p);
    case Touch(ip, now) => TouchInv(s, ip, now);
    case SweepAll(now) =>
      hide Waiting, Sweep, GivenUp, DistinctIps, NewestFirst;
      SweepKeeps(s.reqs, now);
      SweepDistinct(s.reqs, now);
      SweepNewestFirst(s.reqs, s.arrived, now);
    case _ => RemoveInv(s, op);
  }

  lemma TouchInv(s: QueueLog, ip: nat, now: int)
    requires QueueInv(s)
    ensures QueueInv(QueueStep(s, Touch(ip, now)))
  {
    hide Waiting, Reversed;
    var i := IndexOf(s.reqs, ip);
    if i < |s.reqs| {
      WaitingUpdate(s.reqs, i, Handle(s.reqs[i], now), []);
      assert Waiting(s.reqs) + multiset([]) == Waiting(s.reqs);
    }
  }

  lemma RemoveInv(s: QueueLog, op: QueueOp)
    requires QueueInv(s) && (op.Answer? || op.Drop?)
    ensures QueueInv(QueueStep(s, op))
  {
    hide Waiting, Reversed;
    var i := IndexOf(s.reqs, op.ip);
    if i < |s.reqs| {
      WaitingSplit(s.reqs, i);
      RemoveKeeps(s.reqs, s.arrived, i);
      hide DistinctIps, NewestFirst;
    }
  }

  lemma RemoveKeeps(reqs: seq<Request>, arrived: map<nat, seq<Packet>>, i: nat)
    requires DistinctIps(reqs) && NewestFirst(reqs, arrived) && i < |reqs|
    ensures DistinctIps(Without(reqs, i)) && NewestFirst(Without(reqs, i), arrived)
  {
    var t := Without(reqs, i);
    assert forall j :: 0 <= j < |t| ==> t[j] == reqs[if j < i then j else j + 1];
  }

  function QueueAfter(ops: seq<QueueOp>): QueueLog {
    if ops == [] then EMPTY else QueueStep(QueueAfter(ops[..|ops| - 1]), ops[|ops| - 1])
  }

  /** Over every run: one request per address at most; every packet ever queued waits, or was
      handed back with its request, or was freed, and exactly one of these; and a request is
      handed back with its packets newest first. */
  lemma {:induction false} PacketConservation(ops: seq<QueueOp>, ip: nat)
    ensures var s := QueueAfter(ops);
            && DistinctIps(s.reqs)
            && s.queued == Waiting(s.reqs) + s.handed + s.freed
            && var i := IndexOf(s.reqs, ip);
               i < |s.reqs| ==> ip in s.arrived && s.reqs[i].packets == Reversed(s.arrived[ip])
  {
    QueueRunInv(ops);
  }

  lemma {:induction false} QueueRunInv(ops: seq<QueueOp>)
    ensures QueueInv(QueueAfter(ops))
  {
    if ops != [] {
      QueueRunInv(ops[..|ops| - 1]);
      QueueStepInv(QueueAfter(ops[..|ops| - 1]), ops[|ops| - 1]);
    }
  }

  // ------------------------------------------------------------------ transmissions

  /** A request that only sweeps advance, at the given times: what is left of it, and when it
      was transmitted. */
  function Swept(r: Request, nows: seq<int>): Option<Request> {
    if nows == [] then Some(r)
    else match Swept(r, nows[..|nows| - 1])
      case None => None
      case Some(q) =>
        var h := Handle(q, nows[|nows| - 1]);
        if Exhausted(h) then None else Some(h)
  }

  function Sends(r: Request, nows: seq<int>): seq<int> {
    if nows == [] then []
    else
      var before, now := nows[..|nows| - 1], nows[|nows| - 1];
      match Swept(r, before)
      case None => Sends(r, before)
      case Some(q) => Sends(r, before) + if Handle(q, now) != q then [now] else []
  }

  /** A clock past its first second that advances between sweeps. */
  predicate Ticking(nows: seq<int>) {
    && (forall i :: 0 <= i < |nows| ==> nows[i] > 1)
    && (forall i, j :: 0 <= i < j < |nows| ==> nows[i] < nows[j])
  }

  predicate Spaced(sends: seq<int>) {
    forall i :: 0 < i < |sends| ==> sends[i] - sends[i - 1] > 1
  }

  function AfterSweeps(reqs: seq<Request>, nows: seq<int>): seq<Request> {
    if nows == [] then reqs
    else Sweep(AfterSweeps(reqs, nows[..|nows| - 1]), nows[|nows| - 1])
  }

  /** The sweeps treat every request by itself: what survives of the request for an address
      does not depend on the others. */
  lemma {:induction false} SweepsAlone(reqs: seq<Request>, nows: seq<int>, i: nat)
    requires DistinctIps(reqs) && i < |reqs|
    ensures DistinctIps(AfterSweeps(reqs, nows))
    ensures match Swept(reqs[i], nows)
            case Some(r) => r in AfterSweeps(reqs, nows) && r.ip == reqs[i].ip
            case None => forall r :: r in AfterSweeps(reqs, nows) ==> r.ip != reqs[i].ip
  {
    if nows != [] {
      var before, now := nows[..|nows| - 1], nows[|nows| - 1];
      var q := AfterSweeps(reqs, before);
      SweepsAlone(reqs, before, i);
      SweepDistinct(q, now);
      if Swept(reqs[i], before).Some? {
        var j :| 0 <= j < |q| && q[j] == Swept(reqs[i], before).value;
        SweepAlone(q, now, j);
      } else {
        forall r | r in Sweep(q, now)
          ensures r.ip != reqs[i].ip
        {
          SweepSubsequence(q, now, r);
        }
      }
    }
  }

  lemma SweepAlone(reqs: seq<Request>, now: int, i: nat)
    requires DistinctIps(reqs) && i < |reqs|
    ensures var h := Handle(reqs[i], now);
            if Exhausted(h) then forall r :: r in Sweep(reqs, now) ==> r.ip != reqs[i].ip
            else h in Sweep(reqs, now)
  {
    if Exhausted(Handle(reqs[i], now)) {
      forall r | r in Sweep(reqs, now)
        ensures r.ip != reqs[i].ip
      {
        SweepSubsequence(reqs, now, r);
      }
    } else {
      SweepContains(reqs, now, i);
    }
  }

  lemma {:induction false} SweepContains(reqs: seq<Request>, now: int, i: nat)
    requires i < |reqs| && !Exhausted(Handle(reqs[i], now))
    ensures Handle(reqs[i], now) in Sweep(reqs, now)
  {
    if i < |reqs| - 1 {
      SweepContains(reqs[..|reqs| - 1], now, i);
    }
  }

  /** How a fresh request stands after a run of sweeps. */
  lemma {:induction false} SweptState(r: Request, nows: seq<int>)
    requires r.sent == 0 && r.timesSent == 0 && Ticking(nows)
    ensures |Sends(r, nows)| <= 5 && Spaced(Sends(r, nows))
    ensures match Swept(r, nows)
            case None => |Sends(r, nows)| == 5
            case Some(q) =>
              var sends := Sends(r, nows);
              && q.ip == r.ip && q.packets == r.packets
              && q.timesSent == |sends| < 5
              && q.sent == (if sends == [] then 0 else sends[|sends| - 1])
              && (nows != [] ==> 0 < q.sent <= nows[|nows| - 1])
              && |nows| <= 2 * q.timesSent
                           - (if nows != [] && q.sent == nows[|nows| - 1] then 1 else 0)
  {
    if nows != [] {
      var before := nows[..|nows| - 1];
      assert Ticking(before);
      SweptState(r, before);
      if before != [] {
        assert before[|before| - 1] == nows[|nows| - 2] < nows[|nows| - 1];
      }
    }
  }

  /** A request that nobody answers is transmitted at most five times, more than a second
      apart; none with five transmissions survives a sweep; and after nine sweeps it is gone. */
  lemma RetryDiscipline(r: Request, nows: seq<int>)
    requires r.sent == 0 && r.timesSent == 0 && Ticking(nows)
    ensures |Sends(r, nows)| <= 5 && Spaced(Sends(r, nows))
    ensures Swept(r, nows).Some? ==> Swept(r, nows).value.timesSent == |Sends(r, nows)| < 5
    ensures |nows| >= 9 ==> Swept(r, nows).None?
  {
    SweptState(r, nows);
  }

  /** Sweeps, with packets queued in between, and no answer. */
  predicate Unattended(ops: seq<QueueOp>) {
    forall i :: 0 <= i < |ops| ==> ops[i].Queue? || ops[i].SweepAll?
  }

  function SweepTimes(ops: seq<QueueOp>): seq<int> {
    if ops == [] then []
    else
      var op := ops[|ops| - 1];
      SweepTimes(ops[..|ops| - 1]) + if op.SweepAll? then [op.now] else []
  }

  function QueueAfterOps(reqs: seq<Request>, ops: seq<QueueOp>): seq<Request>
    requires Unattended(ops)
  {
    if ops == [] then reqs
    else
      var before, op := QueueAfterOps(reqs, ops[..|ops| - 1]), ops[|ops| - 1];
      if op.SweepAll? then Sweep(before, op.now) else QueueIn(before, op.ip, op.packet)
  }

  /** There is a request for the address, sent as often and as late as `q`. */
  ghost predicate StandsAs(reqs: seq<Request>, ip: nat, q: Request) {
    exists i :: 0 <= i < |reqs| && reqs[i].ip == ip && reqs[i].sent == q.sent
                && reqs[i].timesSent == q.timesSent
  }

  /** At some moment of the run there is no request for the address. */
  ghost predicate GivenUpBy(reqs: seq<Request>, ip: nat, ops: seq<QueueOp>)
    requires Unattended(ops)
  {
    exists k :: 0 <= k <= |ops| && NoneFor(QueueAfterOps(reqs, ops[..k]), ip)
  }

  lemma QueueStands(reqs: seq<Request>, ip: nat, q: Request, other: nat, p: Option<Packet>)
    requires DistinctIps(reqs) && StandsAs(reqs, ip, q)
    ensures DistinctIps(QueueIn(reqs, other, p)) && StandsAs(QueueIn(reqs, other, p), ip, q)
  {
    hide QueueIn;
    Queued(reqs, other, p);
    QueueKeeps(reqs, other, p);
    var t := QueueIn(reqs, other, p);
    var i :| 0 <= i < |reqs| && reqs[i].ip == ip && reqs[i].sent == q.sent
             && reqs[i].timesSent == q.timesSent;
    if NoneFor(reqs, other) {
      assert t[i + 1] == reqs[i];
    } else {
      assert t[i].ip == ip && t[i].sent == q.sent && t[i].timesSent == q.timesSent;
    }
  }

  lemma SweepStands(reqs: seq<Request>, ip: nat, q: Request, now: int)
    requires DistinctIps(reqs) && StandsAs(reqs, ip, q)
    ensures DistinctIps(Sweep(reqs, now))
    ensures if Exhausted(Handle(q, now)) then NoneFor(Sweep(reqs, now), ip)
            else StandsAs(Sweep(reqs, now), ip, Handle(q, now))
  {
    SweepDistinct(reqs, now);
    var i :| 0 <= i < |reqs| && reqs[i].ip == ip && reqs[i].sent == q.sent
             && reqs[i].timesSent == q.timesSent;
    SweepAlone(reqs, now, i);
    var h := Handle(reqs[i], now);
    if !Exhausted(h) {
      var j :| 0 <= j < |Sweep(reqs, now)| && Sweep(reqs, now)[j] == h;
    }
  }

  /** Packets that join a request, and other requests, do not change when it is sent. */
  lemma {:induction false} StandsOrGone(reqs: seq<Request>, ip: nat, q: Request, ops: seq<QueueOp>)
    requires DistinctIps(reqs) && StandsAs(reqs, ip, q) && Unattended(ops)
    ensures match Swept(q, SweepTimes(ops))
            case Some(r) =>
              DistinctIps(QueueAfterOps(reqs, ops)) && StandsAs(QueueAfterOps(reqs, ops), ip, r)
            case None => GivenUpBy(reqs, ip, ops)
  {
    if ops != [] {
      hide StandsAs, DistinctIps, QueueIn, Sweep, Handle, Exhausted, NoneFor;
      var n := |ops| - 1;
      var init, op, times := ops[..n], ops[n], SweepTimes(ops[..n]);
      StandsOrGone(reqs, ip, q, init);
      if Swept(q, times).None? {
        var k :| 0 <= k <= n && NoneFor(QueueAfterOps(reqs, init[..k]), ip);
        assert init[..k] == ops[..k];
        SweptStays(q, times, op);
      } else if op.Queue? {
        QueueStands(QueueAfterOps(reqs, init), ip, Swept(q, times).value, op.ip, op.packet);
        assert times + [] == times;
      } else {
        SweepStands(QueueAfterOps(reqs, init), ip, Swept(q, times).value, op.now);
        assert (times + [op.now])[..|times|] == times;
        assert ops[..|ops|] == ops;
      }
    }
  }

  lemma SweptStays(q: Request, times: seq<int>, op: QueueOp)
    requires Swept(q, times).None?
    ensures Swept(q, times + if op.SweepAll? then [op.now] else []).None?
  {
    if op.SweepAll? {
      assert (times + [op.now])[..|times|] == times;
    } else {
      assert times + [] == times;
    }
  }

  /** From the first packet for an address on, if nobody answers: whatever else is queued, for it or
      for others, the request has been given up by the ninth sweep. */
  lemma Unanswered(reqs: seq<Request>, ip: nat, p: Option<Packet>, ops: seq<QueueOp>)
    requires DistinctIps(reqs) && NoneFor(reqs, ip) && Unattended(ops)
    requires Ticking(SweepTimes(ops)) && |SweepTimes(ops)| >= 9
    ensures GivenUpBy(QueueIn(reqs, ip, p), ip, ops)
  {
    var q := Request(ip, 0, 0, PacketsOf(p));
    Queued(reqs, ip, p);
    QueueKeeps(reqs, ip, p);
    assert QueueIn(reqs, ip, p)[0] == q;
    assert StandsAs(QueueIn(reqs, ip, p), ip, q);
    hide QueueIn, StandsAs, GivenUpBy;
    RetryDiscipline(q, SweepTimes(ops));
    StandsOrGone(QueueIn(reqs, ip, p), ip, q, ops);
  }

  /** And if only sweeps follow it is gone for good. */
  lemma SweptAway(reqs: seq<Request>, ip: nat, p: Option<Packet>, nows: seq<int>)
    requires DistinctIps(reqs) && NoneFor(reqs, ip) && Ticking(nows) && |nows| >= 9
    ensures NoneFor(AfterSweeps(QueueIn(reqs, ip, p), nows), ip)
  {
    Queued(reqs, ip, p);
    QueueKeeps(reqs, ip, p);
    var t := QueueIn(reqs, ip, p);
    assert t[0] == Request(ip, 0, 0, PacketsOf(p));
    RetryDiscipline(t[0], nows);
    SweepsAlone(t, nows, 0);
  }

  /** The first sweep past the first second transmits it. */
  lemma FirstSweepSends(reqs: seq<Request>, ip: nat, p: Option<Packet>, now: int)
    requires DistinctIps(reqs) && NoneFor(reqs, ip) && now > 1
    ensures Request(ip, now, 1, PacketsOf(p)) in Sweep(QueueIn(reqs, ip, p), now)
  {
    Queued(reqs, ip, p);
    assert QueueIn(reqs, ip, p)[0] == Request(ip, 0, 0, PacketsOf(p));
    SweepContains(QueueIn(reqs, ip, p), now, 0);
  }

  /** Eight sweeps need not be enough: with a clock that advances by one second each time only
      every other sweep transmits. */
  lemma EightSweepsSurvived(r: Request)
    requires r.sent == 0 && r.timesSent == 0
    ensures Ticking([2, 3, 4, 5, 6, 7, 8, 9])
    ensures Swept(r, [2, 3, 4, 5, 6, 7, 8, 9]) == Some(r.(sent := 8, timesSent := 4))
  {
    var t := [2, 3, 4, 5, 6, 7, 8, 9];
    assert Swept(r, t[..0]) == Some(r);
    assert t[..1][..0] == t[..0] && t[..2][..1] == t[..1] && t[..3][..2] == t[..2];
    assert t[..4][..3] == t[..3] && t[..5][..4] == t[..4] && t[..6][..5] == t[..5];
    assert t[..7][..6] == t[..6] && t[..8][..7] == t[..7] && t[..8] == t;
    assert Swept(r, t[..2]) == Some(r.(sent := 2, timesSent := 1));
    assert Swept(r, t[..4]) == Some(r.(sent := 4, timesSent := 2));
    assert Swept(r, t[..6]) == Some(r.(sent := 6, timesSent := 3));
  }

  // ------------------------------------------------------------------ mappings

  datatype TableOp = Learn(mac: seq<byte>, ip: nat, now: int) | Expire(now: int)

  datatype Fact = Fact(mac: seq<byte>, ip: nat, time: int)

  /** The table with its history. */
  datatype TableLog = TableLog(entries: seq<Entry>, clock: int, lastSweep: int, facts: set<Fact>)

  /** The clock does not run backwards. */
  predicate TableEnabled(s: TableLog, op: TableOp) {
    s.clock <= op.now
  }

  function TableStep(s: TableLog, op: TableOp): TableLog {
    match op
    case Learn(mac, ip, now) =>
      s.(entries := InsertIn(s.entries, mac, ip, now), clock := now,
         facts := s.facts + {Fact(mac, ip, now)})
    case Expire(now) =>
      s.(entries := ExpireIn(s.entries, now), clock := now, lastSweep := now)
  }

  predicate TableInv(s: TableLog) {
    && s.lastSweep <= s.clock
    && forall i :: 0 <= i < |s.entries| && s.entries[i].valid ==>
         var e := s.entries[i];
         Fact(e.mac, e.ip, e.added) in s.facts && s.lastSweep - e.added <= SR_ARPCACHE_TO
  }

  lemma TableStepInv(s: TableLog, op: TableOp)
    requires TableInv(s) && TableEnabled(s, op)
    ensures TableInv(TableStep(s, op))
  {
  }

  predicate IsTableRun(s: TableLog, ops: seq<TableOp>)
    decreases |ops|
  {
    ops == [] || (TableEnabled(s, ops[0]) && IsTableRun(TableStep(s, ops[0]), ops[1..]))
  }

  function TableAfter(s: TableLog, ops: seq<TableOp>): TableLog
    decreases |ops|
  {
    if ops == [] then s else TableAfter(TableStep(s, ops[0]), ops[1..])
  }

  lemma {:induction false} LookupFound(entries: seq<Entry>, ip: nat)
    ensures match LookupIn(entries, ip)
            case Some(e) => e.valid && e.ip == ip && e in entries
            case None => forall i :: 0 <= i < |entries| ==> !Matches(entries[i], ip)
  {
    if entries != [] {
      LookupFound(entries[..|entries| - 1], ip);
    }
  }

  lemma {:induction false} TableRunInv(s: TableLog, ops: seq<TableOp>)
    requires TableInv(s) && IsTableRun(s, ops)
    ensures TableInv(TableAfter(s, ops))
    decreases |ops|
  {
    if ops != [] {
      TableStepInv(s, ops[0]);
      TableRunInv(TableStep(s, ops[0]), ops[1..]);
    }
  }

  /** Over every run, an entry that lookup returns was learnt for that very address, with that
      MAC, at the time it says, no more than 15 seconds before the latest sweep. */
  lemma LookupIsFresh(start: TableLog, ops: seq<TableOp>, ip: nat)
    requires start.lastSweep <= start.clock && IsTableRun(start, ops)
    requires forall i :: 0 <= i < |start.entries| ==> !start.entries[i].valid
    ensures var s := TableAfter(start, ops);
            var e := LookupIn(s.entries, ip);
            e.Some? ==> e.value.ip == ip
                        && Fact(e.value.mac, ip, e.value.added) in s.facts
                        && s.lastSweep - e.value.added <= 15
  {
    TableRunInv(start, ops);
    LookupFound(TableAfter(start, ops).entries, ip);
  }

  /** The mappings as a finite map. */
  function MapOf(entries: seq<Entry>): map<nat, (seq<byte>, int)> {
    if entries == [] then map[]
    else
      var e := entries[|entries| - 1];
      var m := MapOf(entries[..|entries| - 1]);
      if e.valid then m[e.ip := (e.mac, e.added)] else m
  }

  predicate UniqueIps(entries: seq<Entry>) {
    forall i, j :: 0 <= i < j < |entries| && entries[i].valid && entries[j].valid ==>
      entries[i].ip != entries[j].ip
  }

  /** Lookup is lookup in the map. */
  lemma {:induction false} LookupMap(entries: seq<Entry>, ip: nat)
    ensures match LookupIn(entries, ip)
            case Some(e) => ip in MapOf(entries) && MapOf(entries)[ip] == (e.mac, e.added)
            case None => ip !in MapOf(entries)
  {
    if entries != [] {
      LookupMap(entries[..|entries| - 1], ip);
    }
  }

  lemma {:induction false} MapEntry(entries: seq<Entry>, ip: nat)
    requires UniqueIps(entries)
    ensures ip in MapOf(entries) <==> exists i :: 0 <= i < |entries| && Matches(entries[i], ip)
    ensures forall i :: 0 <= i < |entries| && Matches(entries[i], ip) ==>
              ip in MapOf(entries) && MapOf(entries)[ip] == (entries[i].mac, entries[i].added)
  {
    if entries != [] {
      var init := entries[..|entries| - 1];
      MapEntry(init, ip);
      assert forall i :: 0 <= i < |init| ==> init[i] == entries[i];
    }
  }

  /** The map is as large as the table exactly when every entry is valid. */
  lemma {:induction false} MapSize(entries: seq<Entry>)
    requires UniqueIps(entries)
    ensures |MapOf(entries)| <= |entries|
    ensures |MapOf(entries)| < |entries| <==> FirstInvalid(entries) < |entries|
  {
    if entries != [] {
      var n := |entries| - 1;
      var init := entries[..n];
      MapSize(init);
      MapEntry(init, entries[n].ip);
      var i, j := FirstInvalid(entries), FirstInvalid(init);
      assert j < n ==> !entries[j].valid;
      assert i < n ==> !init[i].valid;
    }
  }

  /** Learning only what is missing keeps addresses unique, and the table then is a map that
      forgets after 15 seconds and takes no more than its capacity. */
  lemma LearnMissing(entries: seq<Entry>, mac: seq<byte>, ip: nat, now: int)
    requires UniqueIps(entries) && LookupIn(entries, ip) == None
    ensures UniqueIps(InsertIn(entries, mac, ip, now))
    ensures var m := MapOf(entries);
            MapOf(InsertIn(entries, mac, ip, now))
            == if |m| < |entries| then m[ip := (mac, now)] else m
  {
    LookupFound(entries, ip);
    MapSize(entries);
    var t := InsertIn(entries, mac, ip, now);
    var i := FirstInvalid(entries);
    if i < |entries| {
      assert UniqueIps(t) by {
        assert forall j :: 0 <= j < |entries| && j != i ==> t[j] == entries[j];
      }
      MapUpdate(entries, i, mac, ip, now);
    }
  }

  lemma {:induction false} MapUpdate(entries: seq<Entry>, i: nat, mac: seq<byte>, ip: nat, now: int)
    requires i < |entries| && !entries[i].valid
    requires forall j :: 0 <= j < |entries| ==> !Matches(entries[j], ip)
    ensures MapOf(entries[i := Entry(mac, ip, now, true)])
         == MapOf(entries)[ip := (mac, now)]
  {
    var n := |entries| - 1;
    var t := entries[i := Entry(mac, ip, now, true)];
    if i == n {
      assert t[..n] == entries[..n];
    } else {
      assert t[..n] == entries[..n][i := Entry(mac, ip, now, true)];
      MapUpdate(entries[..n], i, mac, ip, now);
    }
  }

  lemma {:induction false} ExpireMap(entries: seq<Entry>, now: int)
    requires UniqueIps(entries)
    ensures UniqueIps(ExpireIn(entries, now))
    ensures var m := MapOf(entries);
            MapOf(ExpireIn(entries, now))
            == map ip | ip in m && now - m[ip].1 <= 15 :: m[ip]
  {
    if entries != [] {
      var n := |entries| - 1;
      assert ExpireIn(entries, now)[..n] == ExpireIn(entries[..n], now);
      ExpireMap(entries[..n], now);
      MapEntry(entries[..n], entries[n].ip);
    }
  }

  /** A finite map that forgets after 15 seconds and takes no more than `capacity` keys. */
  function MapStep(m: map<nat, (seq<byte>, int)>, op: TableOp, capacity: nat)
    : map<nat, (seq<byte>, int)>
  {
    match op
    case Learn(mac, ip, now) => if |m| < capacity then m[ip := (mac, now)] else m
    case Expire(now) => map ip | ip in m && now - m[ip].1 <= 15 :: m[ip]
  }

  function MapAfter(m: map<nat, (seq<byte>, int)>, ops: seq<TableOp>, capacity: nat)
    : map<nat, (seq<byte>, int)>
    decreases |ops|
  {
    if ops == [] then m else MapAfter(MapStep(m, ops[0], capacity), ops[1..], capacity)
  }

  /** What is learnt is missing, or there is no room for it. */
  predicate Harmless(entries: seq<Entry>, op: TableOp) {
    op.Learn? ==> LookupIn(entries, op.ip) == None || FirstInvalid(entries) == |entries|
  }

  predicate LearnsMissing(s: TableLog, ops: seq<TableOp>)
    decreases |ops|
  {
    ops == [] || (Harmless(s.entries, ops[0]) && LearnsMissing(TableStep(s, ops[0]), ops[1..]))
  }

  /** At every moment of the run. */
  predicate StaysUnique(s: TableLog, ops: seq<TableOp>)
    decreases |ops|
  {
    UniqueIps(s.entries) && (ops == [] || StaysUnique(TableStep(s, ops[0]), ops[1..]))
  }

  /** Learning an address that is there, while there is room, gives it a second entry. */
  lemma LearnTwice(entries: seq<Entry>, mac: seq<byte>, ip: nat, now: int)
    requires LookupIn(entries, ip).Some? && FirstInvalid(entries) < |entries|
    ensures !UniqueIps(InsertIn(entries, mac, ip, now))
  {
    LookupFound(entries, ip);
    var e, i := LookupIn(entries, ip).value, FirstInvalid(entries);
    var t := InsertIn(entries, mac, ip, now);
    var j :| 0 <= j < |entries| && entries[j] == e;
    assert t[j] == e && t[i] == Entry(mac, ip, now, true);
  }

  lemma StepIsMap(s: TableLog, op: TableOp)
    requires UniqueIps(s.entries) && Harmless(s.entries, op)
    ensures var t := TableStep(s, op).entries;
            && UniqueIps(t) && |t| == |s.entries|
            && MapOf(t) == MapStep(MapOf(s.entries), op, |s.entries|)
  {
    hide MapOf;
    match op {
      case Learn(mac, ip, now) =>
        if LookupIn(s.entries, ip) == None {
          LearnMissing(s.entries, mac, ip, now);
        } else {
          MapSize(s.entries);
        }
      case Expire(now) =>
        ExpireMap(s.entries, now);
        var m := MapOf(s.entries);
        assert MapStep(m, op, |s.entries|)
            == map ip | ip in m && now - m[ip].1 <= 15 :: m[ip];
    }
  }

  /** Addresses stay unique at every moment exactly when each one that is learnt is missing, or the
      table is full. */
  lemma {:induction false} UniqueExactly(s: TableLog, ops: seq<TableOp>)
    requires UniqueIps(s.entries)
    ensures StaysUnique(s, ops) <==> LearnsMissing(s, ops)
    decreases |ops|
  {
    if ops != [] {
      if Harmless(s.entries, ops[0]) {
        StepIsMap(s, ops[0]);
        UniqueExactly(TableStep(s, ops[0]), ops[1..]);
      } else {
        LearnTwice(s.entries, ops[0].mac, ops[0].ip, ops[0].now);
      }
    }
  }

  /** Over every such run every lookup answers as the map would. */
  lemma {:induction false} TableIsMap(s: TableLog, ops: seq<TableOp>, ip: nat)
    requires UniqueIps(s.entries) && LearnsMissing(s, ops)
    ensures var t := TableAfter(s, ops).entries;
            var m := MapAfter(MapOf(s.entries), ops, |s.entries|);
            && UniqueIps(t) && MapOf(t) == m
            && match LookupIn(t, ip)
               case Some(e) => ip in m && m[ip] == (e.mac, e.added)
               case None => ip !in m
    decreases |ops|
  {
    if ops == [] {
      LookupMap(s.entries, ip);
    } else {
      StepIsMap(s, ops[0]);
      TableIsMap(TableStep(s, ops[0]), ops[1..], ip);
    }
  }
}
