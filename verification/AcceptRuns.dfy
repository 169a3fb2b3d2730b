/** Whole runs of a listening mysocket: SYNs arrive, connections complete in any order, the
    application accepts and closes, and other mysockets come and go. */
module AcceptRuns {
  import opened ListenQueue
  import DescriptorTable

  /** The queue and the descriptor table, with the history of the connections: each admitted
      SYN gets the next identity. */
  datatype State = State(
    queue: View,
    live: set<nat>,          // descriptors in use
    blocking: set<nat>,      // passive mysockets whose application is not unblocked yet
    ids: map<nat, nat>,      // the identity of the request in each busy slot
    admitted: nat,           // how many SYNs have been admitted
    completed: seq<nat>,     // identities in the order of completion
    accepted: seq<nat>       // identities in the order of acceptance
  )

  datatype Step =
    | Syn(peer: nat)
    | Complete(sd: nat)      // stcp_unblock_application on a passive mysocket
    | Accept
    | Close(sd: nat)         // myclose by the application
    | Open                   // mysocket() for something else
    | SetBacklog(limit: nat) // mylisten, again

  /** What the table gives out next. */
  ghost predicate Allocates(live: set<nat>, sd: int) {
    if DescriptorTable.LowestFree(live, DescriptorTable.MAX_NUM_CONNECTIONS) then sd == -1
    else 0 <= sd < DescriptorTable.MAX_NUM_CONNECTIONS && DescriptorTable.LowestFree(live, sd)
  }

  ghost predicate Holds(v: View, sd: int, k: nat) {
    Busy(v, k) && v.slots[k].sd == sd
  }

  /** The steps.  `stcp_unblock_application` asserts that the application is still blocked;
      an application closes only what it holds, not what waits in the queue; and the limit is not
      lowered below a slot in use. */
  ghost predicate Next(s: State, step: Step, t: State) {
    match step
    case Syn(peer) =>
      peer != 0 && exists sd :: Allocates(s.live, sd) && t == AfterSynStep(s, peer, sd)
    case Complete(sd) =>
      sd in s.blocking && exists k :: Holds(s.queue, sd, k) && t == AfterCompleteStep(s, sd, k)
    case Accept =>
      s.queue.completed != [] && s.queue.completed[0] < |s.queue.slots|
      && s.queue.completed[0] in s.ids && t == AfterAcceptStep(s)
    case Close(sd) =>
      sd in s.live && Unused(s.queue, sd) && t == s.(live := s.live - {sd})
    case SetBacklog(limit) =>
      limit > 0 && CutsNothing(s.queue, limit) && t == s.(queue := Resized(s.queue, limit))
    case Open =>
      exists sd :: Allocates(s.live, sd) && t == s.(live := if sd < 0 then s.live else s.live + {sd})
  }

  ghost function AfterSynStep(s: State, peer: nat, sd: int): State {
    if Admitted(s.queue, peer, sd) then
      s.(queue := AfterSyn(s.queue, peer, sd),
         live := s.live + {sd}, blocking := s.blocking + {sd},
         ids := s.ids[FirstFree(s.queue.slots) := s.admitted], admitted := s.admitted + 1)
    else s
  }

  function AfterCompleteStep(s: State, sd: nat, k: nat): State {
    s.(queue := s.queue.(completed := s.queue.completed + [k]),
       blocking := s.blocking - {sd},
       completed := s.completed + if k in s.ids then [s.ids[k]] else [])
  }

  function AfterAcceptStep(s: State): State
    requires s.queue.completed != [] && s.queue.completed[0] < |s.queue.slots|
    requires s.queue.completed[0] in s.ids
  {
    var k := s.queue.completed[0];
    s.(queue := AfterAccept(s.queue), ids := s.ids - {k}, accepted := s.accepted + [s.ids[k]])
  }

  /** The identities of a list of slots. */
  function IdsOf(ids: map<nat, nat>, ks: seq<nat>): (r: seq<nat>)
    requires forall i :: 0 <= i < |ks| ==> ks[i] in ids
    ensures |r| == |ks|
    ensures forall i :: 0 <= i < |ks| ==> r[i] == ids[ks[i]]
  {
    seq(|ks|, i requires 0 <= i < |ks| => ids[ks[i]])
  }

  ghost predicate QueueInv(s: State) {
    && Consistent(s.queue)
    && (forall k: nat :: Busy(s.queue, k) ==> s.queue.slots[k].sd in s.live)
    && (forall k: nat :: Busy(s.queue, k) ==>
          (k !in s.queue.completed <==> s.queue.slots[k].sd in s.blocking))
    && (forall sd :: sd in s.blocking ==> exists k :: Holds(s.queue, sd, k))
  }

  /** Every admitted SYN was accepted or has a slot, and not both. */
  ghost predicate IdentityInv(s: State) {
    && (forall k: nat :: Busy(s.queue, k) <==> k in s.ids)
    && (forall k :: k in s.ids ==> s.ids[k] < s.admitted && s.ids[k] !in s.accepted)
    && (forall j, k :: j in s.ids && k in s.ids && j != k ==> s.ids[j] != s.ids[k])
    && (forall i, j :: 0 <= i < j < |s.accepted| ==> s.accepted[i] != s.accepted[j])
    && (forall x: nat :: x < s.admitted <==> x in s.accepted || x in s.ids.Values)
    && s.admitted == |s.accepted| + Count(s.queue.slots)
  }

  /** The completed connections are those accepted and then those in the list. */
  ghost predicate OrderInv(s: State) {
    && (forall i :: 0 <= i < |s.queue.completed| ==> s.queue.completed[i] in s.ids)
    && s.completed == s.accepted + IdsOf(s.ids, s.queue.completed)
  }

  ghost predicate HistoryInv(s: State) {
    IdentityInv(s) && OrderInv(s)
  }

  ghost predicate Inv(s: State) {
    QueueInv(s) && HistoryInv(s)
  }

  ghost predicate Start(s: State) {
    && (forall k :: 0 <= k < |s.queue.slots| ==> s.queue.slots[k] == FREE)
    && s.queue.completed == [] && s.blocking == {} && s.ids == map[]
    && s.admitted == 0 && s.completed == [] && s.accepted == []
  }

  lemma StartInv(s: State)
    requires Start(s)
    ensures Inv(s)
  {
    CountZero(s.queue.slots);
  }

  lemma SynInv(s: State, peer: nat, sd: int)
    requires Inv(s) && peer != 0 && Allocates(s.live, sd)
    ensures Inv(AfterSynStep(s, peer, sd))
  {
    if Admitted(s.queue, peer, sd) {
      SynQueueInv(s, peer, sd);
      SynHistoryInv(s, peer, sd);
    }
  }

  lemma SynQueueInv(s: State, peer: nat, sd: int)
    requires QueueInv(s) && peer != 0 && Allocates(s.live, sd)
    requires Admitted(s.queue, peer, sd)
    ensures QueueInv(AfterSynStep(s, peer, sd))
  {
    var t := AfterSynStep(s, peer, sd);
    var f := FirstFree(s.queue.slots);
    assert sd !in s.live;
    assert forall k :: 0 <= k < |s.queue.slots| && s.queue.slots[k].sd >= 0 ==> Busy(s.queue, k);
    SynConsistent(s.queue, peer, sd);
    assert forall k: nat :: k != f ==> (Busy(t.queue, k) <==> Busy(s.queue, k));
    forall d | d in t.blocking
      ensures exists k :: Holds(t.queue, d, k)
    {
      if d == sd {
        assert Holds(t.queue, d, f);
      } else {
        var k :| Holds(s.queue, d, k);
        assert Holds(t.queue, d, k);
      }
    }
    assert f !in s.queue.completed by {
      assert !Busy(s.queue, f);
    }
  }

  lemma SynHistoryInv(s: State, peer: nat, sd: int)
    requires HistoryInv(s) && Admitted(s.queue, peer, sd)
    ensures HistoryInv(AfterSynStep(s, peer, sd))
  {
    var t := AfterSynStep(s, peer, sd);
    var f := FirstFree(s.queue.slots);
    assert !Busy(s.queue, f) && f !in s.ids;
    assert forall k: nat :: k != f ==> (Busy(t.queue, k) <==> Busy(s.queue, k));
    ValuesAdded(s.ids, f, s.admitted);
    CountUpdate(s.queue.slots, f, Slot(peer, sd));
    assert s.admitted !in s.accepted && s.admitted !in s.ids.Values;
    assert IdsOf(t.ids, t.queue.completed) == IdsOf(s.ids, s.queue.completed);
  }

  lemma ValuesAdded(m: map<nat, nat>, k: nat, x: nat)
    requires k !in m
    ensures m[k := x].Values == m.Values + {x}
  {
    var n := m[k := x];
    assert forall y :: y in m.Values ==> y in n.Values by {
      forall y | y in m.Values
        ensures y in n.Values
      {
        var j :| j in m && m[j] == y;
        assert n[j] == y;
      }
    }
    assert n[k] == x;
  }

  lemma CompleteInv(s: State, sd: nat, k: nat)
    requires Inv(s) && sd in s.blocking && Holds(s.queue, sd, k)
    ensures k !in s.queue.completed
    ensures Inv(AfterCompleteStep(s, sd, k))
  {
    CompleteQueueInv(s, sd, k);
    CompleteHistoryInv(s, sd, k);
  }

  lemma CompleteQueueInv(s: State, sd: nat, k: nat)
    requires QueueInv(s) && sd in s.blocking && Holds(s.queue, sd, k)
    ensures k !in s.queue.completed
    ensures QueueInv(AfterCompleteStep(s, sd, k))
  {
    var t := AfterCompleteStep(s, sd, k);
    CompleteConsistent(s.queue, k);
    assert forall j: nat :: Busy(t.queue, j) <==> Busy(s.queue, j);
    assert forall d, j: nat :: Holds(t.queue, d, j) <==> Holds(s.queue, d, j);
  }

  lemma CompleteHistoryInv(s: State, sd: nat, k: nat)
    requires HistoryInv(s) && Holds(s.queue, sd, k)
    ensures HistoryInv(AfterCompleteStep(s, sd, k))
  {
    var t := AfterCompleteStep(s, sd, k);
    assert forall j: nat :: Busy(t.queue, j) <==> Busy(s.queue, j);
    assert IdsOf(t.ids, t.queue.completed) == IdsOf(s.ids, s.queue.completed) + [s.ids[k]];
  }

  lemma AcceptInv(s: State)
    requires Inv(s) && s.queue.completed != []
    ensures s.queue.completed[0] in s.ids && s.queue.completed[0] < |s.queue.slots|
    ensures Inv(AfterAcceptStep(s))
  {
    AcceptConsistent(s.queue);
    AcceptQueueInv(s);
    AcceptHistoryInv(s);
  }

  /** The slot of an accepted connection, and no other, falls free and leaves the list. */
  lemma AcceptedSlot(v: View)
    requires Consistent(v) && v.completed != []
    ensures var (f, u) := (v.completed[0], AfterAccept(v));
            && Busy(v, f) && f !in u.completed
            && forall k: nat :: Busy(u, k) ==>
                 && k != f && Busy(v, k) && u.slots[k] == v.slots[k]
                 && (k in u.completed <==> k in v.completed)
    ensures forall k: nat :: k != v.completed[0] && Busy(v, k) ==> Busy(AfterAccept(v), k)
  {
    hide Count;
    var rest := v.completed[1..];
    assert v.completed == [v.completed[0]] + rest;
  }

  lemma AcceptQueueInv(s: State)
    requires Inv(s) && s.queue.completed != []
    requires s.queue.completed[0] in s.ids && s.queue.completed[0] < |s.queue.slots|
    ensures QueueInv(AfterAcceptStep(s))
  {
    var t := AfterAcceptStep(s);
    AcceptConsistent(s.queue);
    AcceptedSlot(s.queue);
    hide Consistent, HistoryInv, AfterAccept;
    forall d | d in t.blocking
      ensures exists k :: Holds(t.queue, d, k)
    {
      var k :| Holds(s.queue, d, k);
      assert k != s.queue.completed[0];
      assert Holds(t.queue, d, k);
    }
  }

  lemma AcceptHistoryInv(s: State)
    requires Inv(s) && s.queue.completed != []
    requires s.queue.completed[0] in s.ids && s.queue.completed[0] < |s.queue.slots|
    ensures HistoryInv(AfterAcceptStep(s))
  {
    AcceptConsistent(s.queue);
    AcceptOrderInv(s);
    AcceptIdentityInv(s);
  }

  lemma AcceptOrderInv(s: State)
    requires Distinct(s.queue.completed) && OrderInv(s) && s.queue.completed != []
    requires s.queue.completed[0] in s.ids && s.queue.completed[0] < |s.queue.slots|
    ensures OrderInv(AfterAcceptStep(s))
  {
    var t := AfterAcceptStep(s);
    FirstId(s.ids, s.queue.completed, s.accepted);
    assert t.completed == t.accepted + IdsOf(t.ids, t.queue.completed);
  }

  lemma FirstId(ids: map<nat, nat>, ks: seq<nat>, before: seq<nat>)
    requires ks != [] && Distinct(ks) && forall i :: 0 <= i < |ks| ==> ks[i] in ids
    ensures forall i :: 0 <= i < |ks[1..]| ==> ks[1..][i] in ids - {ks[0]}
    ensures before + IdsOf(ids, ks)
         == before + [ids[ks[0]]] + IdsOf(ids - {ks[0]}, ks[1..])
  {
    hide IdsOf;
    var rest := ks[1..];
    assert forall i :: 0 <= i < |rest| ==> rest[i] == ks[i + 1] && rest[i] != ks[0];
    var a, b := IdsOf(ids, ks), IdsOf(ids - {ks[0]}, rest);
    assert a == [ids[ks[0]]] + b;
  }

  lemma AcceptIdentityInv(s: State)
    requires IdentityInv(s) && s.queue.completed != []
    requires s.queue.completed[0] in s.ids && s.queue.completed[0] < |s.queue.slots|
    ensures IdentityInv(AfterAcceptStep(s))
  {
    var t := AfterAcceptStep(s);
    var f := s.queue.completed[0];
    assert forall k: nat :: Busy(t.queue, k) <==> k != f && Busy(s.queue, k);
    ValuesRemoved(s.ids, f);
    CountUpdate(s.queue.slots, f, FREE);
    hide Count;
    assert s.ids[f] in s.ids.Values;
    assert forall x :: x in t.accepted <==> x in s.accepted || x == s.ids[f];
  }

  lemma ValuesRemoved(m: map<nat, nat>, k: nat)
    requires k in m && forall i, j :: i in m && j in m && i != j ==> m[i] != m[j]
    ensures (m - {k}).Values == m.Values - {m[k]}
  {
    var n := m - {k};
    forall y | y in m.Values && y != m[k]
      ensures y in n.Values
    {
      var j :| j in m && m[j] == y;
      assert n[j] == y;
    }
  }

  lemma BacklogInv(s: State, limit: nat)
    requires Inv(s) && CutsNothing(s.queue, limit)
    ensures Inv(s.(queue := Resized(s.queue, limit)))
  {
    ResizedConsistent(s.queue, limit);
    var t := s.(queue := Resized(s.queue, limit));
    hide Consistent, Count, CutsNothing;
    assert forall d, k: nat :: Holds(t.queue, d, k) <==> Holds(s.queue, d, k);
  }

  lemma StepInv(s: State, step: Step, t: State)
    requires Inv(s) && Next(s, step, t)
    ensures Inv(t)
  {
    match step
    case Syn(peer) =>
      var sd :| Allocates(s.live, sd) && t == AfterSynStep(s, peer, sd);
      SynInv(s, peer, sd);
    case Complete(sd) =>
      var k :| Holds(s.queue, sd, k) && t == AfterCompleteStep(s, sd, k);
      CompleteInv(s, sd, k);
    case Accept => AcceptInv(s);
    case Close(sd) =>
    case Open =>
    case SetBacklog(limit) => BacklogInv(s, limit);
  }

  ghost predicate IsRun(run: seq<State>, steps: seq<Step>) {
    && |run| == |steps| + 1 && Start(run[0])
    && forall i :: 0 <= i < |steps| ==> Next(run[i], steps[i], run[i + 1])
  }

  lemma {:induction false} RunInv(run: seq<State>, steps: seq<Step>, i: nat)
    requires IsRun(run, steps) && i < |run|
    ensures Inv(run[i])
  {
    if i == 0 {
      StartInv(run[0]);
    } else {
      RunInv(run, steps, i - 1);
      StepInv(run[i - 1], steps[i - 1], run[i]);
    }
  }

  /** The assertions of the code never fire: below the limit there is an empty slot; a mysocket
      that is still blocked has a request that is not completed yet; and a completed
      connection is counted. */
  lemma AssertionsHold(run: seq<State>, steps: seq<Step>, i: nat)
    requires IsRun(run, steps) && i < |run|
    ensures var q := run[i].queue;
            && Count(q.slots) <= |q.slots|
            && (Count(q.slots) < |q.slots| ==> FirstFree(q.slots) < |q.slots|)
            && (forall sd :: sd in run[i].blocking ==>
                  exists k :: Holds(q, sd, k) && k !in q.completed)
            && (q.completed != [] ==> Count(q.slots) > 0)
  {
    RunInv(run, steps, i);
    var s := run[i];
    if Count(s.queue.slots) < |s.queue.slots| {
      CountFull(s.queue.slots);
      var k :| 0 <= k < |s.queue.slots| && s.queue.slots[k].sd < 0;
      SomeFree(s.queue.slots, k);
    }
    if s.queue.completed != [] {
      assert Busy(s.queue, s.queue.completed[0]);
      CountPositive(s.queue.slots, s.queue.completed[0]);
    }
  }

  lemma {:induction false} SomeFree(slots: seq<Slot>, k: nat)
    requires k < |slots| && slots[k].sd < 0
    ensures FirstFree(slots) <= k
  {
    if k > 0 && slots[0].sd >= 0 {
      SomeFree(slots[1..], k - 1);
    }
  }

  /** Connections leave `myaccept` in the order in which they completed, each admitted SYN at
      most once; and every admitted SYN is accepted, or waits completed, or is pending, and
      only one of these. */
  lemma AcceptOrder(run: seq<State>, steps: seq<Step>, i: nat)
    requires IsRun(run, steps) && i < |run|
    ensures var s := run[i];
            && s.accepted <= s.completed
            && (forall j, k :: 0 <= j < k < |s.accepted| ==> s.accepted[j] != s.accepted[k])
            && (forall x: nat :: x < s.admitted <==> x in s.accepted || x in s.ids.Values)
            && (forall x :: x in s.accepted ==> x !in s.ids.Values)
            && s.admitted == |s.accepted| + Count(s.queue.slots)
  {
    RunInv(run, steps, i);
    var s := run[i];
    assert forall x :: x in s.accepted ==> x !in s.ids.Values;
  }
}
