/** Two mysockets joined by a byte stream, as a machine whose steps are the system calls of
    the sender, of the receiving thread, and the calls of the transport layer. */
module Channel {
  import opened Bytes
  import opened TcpSum
  import opened NetworkSend
  import opened Framing

  datatype State = State(
    sent: seq<seq<byte>>,      // segments put on the wire, as stamped
    unwritten: seq<byte>,      // what is left of the frame being written
    torn: bool,                // a frame has been left unfinished
    stream: seq<byte>,         // octets in the TCP connection
    partial: seq<byte>,        // octets of the frame being read
    queue: seq<seq<byte>>,     // the network receive queue
    closed: bool,              // the receiving thread has given up
    delivered: seq<seq<byte>>  // what the transport layer has received
  )

  datatype Step =
    | Send(segment: seq<byte>)
    | WriteSome(n: nat)
    | WriteStops(lost: nat)   // a write fails, or stalls, and this much will not be written
    | ReadSome(n: nat)
    | ReadFails
    | Recv(maxLen: nat)

  const START := State([], [], false, [], [], [], false, [])

  /** How many octets the receiver still asks for: first the length, then the packet. */
  function Wanted(partial: seq<byte>): int {
    if |partial| < 2 then 2 - |partial| else 2 + LengthOf(partial) - |partial|
  }

  predicate Enabled(s: State, step: Step) {
    match step
    case Send(segment) => Sendable(segment) && s.unwritten == []
    case WriteSome(n) => 0 < n <= |s.unwritten|
    case WriteStops(lost) => 0 < lost <= |s.unwritten|
    case ReadSome(n) => !s.closed && 0 < n <= |s.stream| && n <= Wanted(s.partial)
    case ReadFails => !s.closed
    case Recv(maxLen) => s.queue != [] && |s.queue[0]| <= maxLen
  }

  function Next(link: Link, s: State, step: Step): State
    requires Enabled(s, step)
  {
    match step
    case Send(segment) =>
      var p := Stamped(link, segment);
      s.(sent := s.sent + [p], unwritten := Frame(p))
    case WriteSome(n) =>
      s.(stream := s.stream + s.unwritten[..n], unwritten := s.unwritten[n..])
    case WriteStops(lost) => Stopped(s, lost)
    case ReadSome(n) => Arrive(s.(stream := s.stream[n..]), s.partial + s.stream[..n])
    case ReadFails => s.(closed := true, queue := s.queue + [[]])
    case Recv(maxLen) => s.(queue := s.queue[1..], delivered := s.delivered + [s.queue[0]])
  }

  /** A segment of which nothing was written was not put on the wire, as far as the stream is whole;
      any other is left unfinished.  What `_network_send_packet` returns is another matter: when
      writes return 0 it reports a segment as sent that is not on the wire. */
  function Stopped(s: State, lost: nat): State
    requires 0 < lost <= |s.unwritten|
  {
    if !s.torn && s.sent != [] && lost == |s.unwritten| == |Frame(s.sent[|s.sent| - 1])|
    then s.(sent := s.sent[..|s.sent| - 1], unwritten := [])
    else s.(unwritten := s.unwritten[lost..], torn := true)
  }

  /** The receiving thread has `read` of the current frame: it queues a whole packet, gives
      up on an empty one, and otherwise reads on. */
  function Arrive(s: State, read: seq<byte>): State {
    if |read| < 2 || |read| < 2 + LengthOf(read) then s.(partial := read)
    else if LengthOf(read) == 0 then s.(partial := [], closed := true, queue := s.queue + [[]])
    else s.(partial := [], queue := s.queue + [read[2..]])
  }

  /** Everything that came out of the stream so far. */
  function Received(s: State): seq<seq<byte>> {
    s.delivered + s.queue
  }

  /** Only the last entry may be the empty packet that stands for the end. */
  function Packets(s: State): seq<seq<byte>> {
    var r := Received(s);
    if s.closed && r != [] then r[..|r| - 1] else r
  }

  predicate Inv(link: Link, s: State) {
    InOrder(link, s) && Aligned(s) && Wanted(s.partial) > 0
  }

  /** The packets that have come out are the first ones that were sent. */
  predicate InOrder(link: Link, s: State) {
    && (forall i :: 0 <= i < |s.sent| ==> GoodPacket(link, s.sent[i]))
    && (s.closed ==> Received(s) != [] && Received(s)[|Received(s)| - 1] == [])
    && Packets(s) <= s.sent
  }

  /** What has been written and not come out yet is the beginning of the frames that are due; and
      all of them with what is still to be written, if no frame is torn.  Behind a torn frame
      something is missing. */
  predicate Aligned(s: State) {
    var out := Wire(Packets(s)) + s.partial + s.stream;
    if s.torn then out < Wire(s.sent) else Wire(s.sent) == out + s.unwritten
  }

  /** What the transport layer may rely on: the size, and a checksum that verifies at its
      end of the connection. */
  predicate GoodPacket(link: Link, p: seq<byte>) {
    Sendable(p) && Verifies(link.local, link.peer, p)
  }

  lemma WireHead(a: seq<seq<byte>>)
    ensures if a == [] then Wire(a) == [] else Wire(a) == Frame(a[0]) + Wire(a[1..])
  {
  }

  lemma SameBehind(front: seq<byte>, a: seq<byte>, b: seq<byte>)
    requires front + a == front + b
    ensures a == b
  {
    assert (front + a)[|front|..] == a;
    assert (front + b)[|front|..] == b;
  }

  /** What is on its way is the frames of the packets that have not come out yet. */
  lemma OnItsWay(sent: seq<seq<byte>>, done: seq<seq<byte>>, rest: seq<byte>)
    requires done <= sent && Wire(sent) == Wire(done) + rest
    ensures rest == Wire(sent[|done|..])
    ensures rest != [] ==> |done| < |sent|
                           && rest == Frame(sent[|done|]) + Wire(sent[|done| + 1..])
  {
    var more := sent[|done|..];
    assert sent == done + more;
    WireHead(more);
    hide Wire, Frame;
    WireAppend(done, more);
    SameBehind(Wire(done), rest, Wire(more));
    if more != [] {
      assert more[1..] == sent[|done| + 1..];
    }
  }

  /** A read that completes a frame has read exactly that frame. */
  lemma FrameRead(p: seq<byte>, tail: seq<byte>, read: seq<byte>, rest: seq<byte>)
    requires Fits(p) && read + rest == Frame(p) + tail
    ensures |read| >= 2 ==> LengthOf(read) == |p|
    ensures |read| == 2 + |p| ==> read == Frame(p) && read[2..] == p
  {
    if |read| >= 2 {
      LengthRoundTrip(p, tail);
      assert read[0] == (read + rest)[0] && read[1] == (read + rest)[1];
    }
    if |read| == 2 + |p| {
      assert read == (read + rest)[..|read|] == Frame(p);
    }
  }

  /** What is behind the octets that are written: the frame being written, or the hole. */
  function Behind(s: State): seq<byte>
    requires Aligned(s)
  {
    if s.torn then Wire(s.sent)[|Wire(Packets(s)) + s.partial + s.stream|..] else s.unwritten
  }

  lemma AlignedSplit(s: State, n: nat)
    requires Aligned(s) && n <= |s.stream|
    ensures var read, rest := s.partial + s.stream[..n], s.stream[n..] + Behind(s);
            Wire(s.sent) == Wire(Packets(s)) + (read + rest)
  {
    BehindIs(s);
    hide Wire, Aligned, Behind, Packets;
    assert s.stream == s.stream[..n] + s.stream[n..];
    Regroup(Wire(Packets(s)), s.partial, s.stream[..n], s.stream[n..], Behind(s));
  }

  lemma BehindIs(s: State)
    requires Aligned(s)
    ensures if s.torn then Behind(s) != [] else Behind(s) == s.unwritten
    ensures Wire(s.sent) == Wire(Packets(s)) + s.partial + s.stream + Behind(s)
  {
  }

  lemma Regroup(w: seq<byte>, a: seq<byte>, b: seq<byte>, c: seq<byte>, d: seq<byte>)
    ensures w + a + (b + c) + d == w + ((a + b) + (c + d))
  {
  }

  /** What a read has in hand is the beginning of the frame of the next packet. */
  lemma ReadFront(link: Link, s: State, n: nat)
    requires Inv(link, s) && Enabled(s, ReadSome(n))
    ensures var read := s.partial + s.stream[..n];
            var k := |Packets(s)|;
            && k < |s.sent| && |s.sent[k]| > 0
            && (|read| >= 2 ==> LengthOf(read) == |s.sent[k]|)
            && (|read| == 2 + |s.sent[k]| ==> read == Frame(s.sent[k]) && read[2..] == s.sent[k])
  {
    var read, rest := s.partial + s.stream[..n], s.stream[n..] + Behind(s);
    var done := Packets(s);
    AlignedSplit(s, n);
    OnItsWay(s.sent, done, read + rest);
    assert GoodPacket(link, s.sent[|done|]);
    FrameRead(s.sent[|done|], Wire(s.sent[|done| + 1..]), read, rest);
  }

  lemma AlignedJoin(t: State, done: seq<byte>, read: seq<byte>, rest: seq<byte>, behind: seq<byte>)
    requires Wire(t.sent) == done + (read + (rest + behind))
    requires Wire(Packets(t)) + t.partial == done + read && t.stream == rest
    requires if t.torn then behind != [] else behind == t.unwritten
    ensures Aligned(t)
  {
    hide Wire, Packets;
    assert done + (read + (rest + behind)) == done + read + rest + behind;
  }

  lemma ReadInv(link: Link, s: State, n: nat)
    requires Inv(link, s) && Enabled(s, ReadSome(n))
    ensures Inv(link, Next(link, s, ReadSome(n)))
    ensures s.closed == Next(link, s, ReadSome(n)).closed
  {
    var t := Next(link, s, ReadSome(n));
    var read, rest := s.partial + s.stream[..n], s.stream[n..];
    var done := Packets(s);
    ReadFront(link, s, n);
    AlignedSplit(s, n);
    BehindIs(s);
    hide InOrder, Wire, Frame, Behind, Aligned;
    if |read| < 2 || |read| < 2 + LengthOf(read) {
      OrderKept(link, s, t);
    } else {
      ArrivedWhole(s, t, read);
      OrderNext(link, s, t);
      WireNext(done, s.sent[|done|]);
    }
    hide Packets, LengthOf;
    AlignedJoin(t, Wire(done), read, rest, Behind(s));
  }

  lemma OrderKept(link: Link, s: State, t: State)
    requires InOrder(link, s) && !s.closed && !t.closed
    requires t.sent == s.sent && Received(t) == Received(s)
    ensures InOrder(link, t) && Packets(t) == Packets(s)
  {
  }

  lemma OrderNext(link: Link, s: State, t: State)
    requires InOrder(link, s) && !t.closed && t.sent == s.sent
    requires |Packets(s)| < |s.sent| && Packets(t) == Packets(s) + [s.sent[|Packets(s)|]]
    ensures InOrder(link, t)
  {
  }

  lemma WireNext(done: seq<seq<byte>>, p: seq<byte>)
    ensures Wire(done + [p]) + [] == Wire(done) + Frame(p)
  {
    WireAppend(done, [p]);
    WireOne(p);
  }

  lemma ArrivedWhole(s: State, t: State, read: seq<byte>)
    requires !s.closed && |read| >= 2
    requires t == s.(stream := t.stream, partial := [], queue := s.queue + [read[2..]])
    ensures Packets(t) == Packets(s) + [read[2..]]
  {
    assert s.delivered + (s.queue + [read[2..]]) == s.delivered + s.queue + [read[2..]];
  }

  lemma SendInv(link: Link, s: State, segment: seq<byte>)
    requires Inv(link, s) && Enabled(s, Send(segment))
    ensures Inv(link, Next(link, s, Send(segment)))
  {
    var p := Stamped(link, segment);
    StampedArrives(link, segment);
    assert GoodPacket(link, p);
    hide GoodPacket, Stamped, Wire, Frame;
    WireAppend(s.sent, [p]);
    WireOne(p);
    var out := Wire(Packets(s)) + s.partial + s.stream;
    assert out + [] == out;
  }

  lemma WriteInv(link: Link, s: State, n: nat)
    requires Inv(link, s) && Enabled(s, WriteSome(n)) && !s.torn
    ensures Inv(link, Next(link, s, WriteSome(n)))
  {
    hide GoodPacket, Wire, LengthOf;
    var t := Next(link, s, WriteSome(n));
    assert Packets(t) == Packets(s);
    hide Packets, InOrder;
    assert s.stream + s.unwritten == t.stream + t.unwritten;
    var before := Wire(Packets(s)) + s.partial;
    assert before + s.stream + s.unwritten == before + (s.stream + s.unwritten);
    assert before + t.stream + t.unwritten == before + (t.stream + t.unwritten);
  }

  /** A segment that is withdrawn was not on the wire, so it is not among the packets either. */
  lemma Withdrawn(s: State)
    requires Aligned(s) && !s.torn && Packets(s) <= s.sent && s.sent != []
    requires |s.unwritten| == |Frame(s.sent[|s.sent| - 1])|
    ensures var sent := s.sent[..|s.sent| - 1];
            Packets(s) <= sent && Wire(sent) == Wire(Packets(s)) + s.partial + s.stream
  {
    var n := |s.sent| - 1;
    var sent, last := s.sent[..n], s.sent[n];
    var out := Wire(Packets(s)) + s.partial + s.stream;
    assert s.sent == sent + [last];
    WireAppend(sent, [last]);
    WireOne(last);
    assert Wire(sent) + Frame(last) == out + s.unwritten;
    assert |Wire(sent)| == |out|;
    assert Wire(sent) == (Wire(sent) + Frame(last))[..|out|];
    assert out == (out + s.unwritten)[..|out|];
    assert |Wire(s.sent)| > |Wire(Packets(s))|;
    assert |Packets(s)| == |s.sent| ==> Packets(s) == s.sent;
  }

  lemma StopInv(link: Link, s: State, lost: nat)
    requires Inv(link, s) && Enabled(s, WriteStops(lost))
    ensures Inv(link, Next(link, s, WriteStops(lost)))
  {
    hide GoodPacket, Wire, Frame;
    var t := Next(link, s, WriteStops(lost));
    var out := Wire(Packets(s)) + s.partial + s.stream;
    if t.torn {
      assert Packets(t) == Packets(s);
    } else {
      Withdrawn(s);
      assert Packets(t) == Packets(s);
      assert out + [] == out;
    }
  }

  lemma QueueInv(link: Link, s: State, step: Step)
    requires Inv(link, s) && Enabled(s, step) && (step.ReadFails? || step.Recv?)
    ensures Inv(link, Next(link, s, step))
  {
    hide GoodPacket;
    var t := Next(link, s, step);
    if step.ReadFails? {
      assert Received(t) == Received(s) + [[]];
      assert Packets(t) == Packets(s);
    } else {
      assert Received(t) == Received(s);
    }
  }

  /** Writing goes on behind a torn frame. */
  predicate WritesBehindTear(s: State, step: Step) {
    step.WriteSome? && s.torn
  }

  lemma StepInv(link: Link, s: State, step: Step)
    requires Inv(link, s) && Enabled(s, step) && !WritesBehindTear(s, step)
    ensures Inv(link, Next(link, s, step))
  {
    match step
    case Send(segment) => SendInv(link, s, segment);
    case WriteSome(n) => WriteInv(link, s, n);
    case WriteStops(lost) => StopInv(link, s, lost);
    case ReadSome(n) => ReadInv(link, s, n);
    case _ => QueueInv(link, s, step);
  }

  predicate IsRun(link: Link, s: State, steps: seq<Step>)
    decreases |steps|
  {
    steps == [] || (Enabled(s, steps[0]) && IsRun(link, Next(link, s, steps[0]), steps[1..]))
  }

  function After(link: Link, s: State, steps: seq<Step>): State
    requires IsRun(link, s, steps)
    decreases |steps|
  {
    if steps == [] then s else After(link, Next(link, s, steps[0]), steps[1..])
  }

  /** Nothing is written behind a frame that was left unfinished. */
  predicate StopsAtTear(link: Link, s: State, steps: seq<Step>)
    requires IsRun(link, s, steps)
    decreases |steps|
  {
    steps == []
    || (!WritesBehindTear(s, steps[0])
        && StopsAtTear(link, Next(link, s, steps[0]), steps[1..]))
  }

  lemma {:induction false} RunInv(link: Link, s: State, steps: seq<Step>)
    requires Inv(link, s) && IsRun(link, s, steps) && StopsAtTear(link, s, steps)
    ensures Inv(link, After(link, s, steps))
    decreases |steps|
  {
    if steps != [] {
      StepInv(link, s, steps[0]);
      RunInv(link, Next(link, s, steps[0]), steps[1..]);
    }
  }

  lemma StartInv(link: Link)
    ensures Inv(link, START)
  {
    assert Wire([]) == [];
  }

  /** What the transport layer received is a beginning of what the other side sent, in order,
      followed at most by the one empty packet that reports the end of the stream; and every packet
      it received verifies. */
  predicate Arrives(link: Link, s: State) {
    && (s.delivered <= s.sent
        || (s.closed && s.delivered != [] && s.delivered[|s.delivered| - 1] == []
            && s.delivered[..|s.delivered| - 1] <= s.sent))
    && forall i :: 0 <= i < |s.delivered| && s.delivered[i] != [] ==> GoodPacket(link, s.delivered[i])
  }

  lemma InOrderArrives(link: Link, s: State)
    requires InOrder(link, s)
    ensures Arrives(link, s)
  {
    hide GoodPacket;
    var r := Received(s);
    assert s.delivered == r[..|s.delivered|];
    if s.queue == [] && s.closed {
      assert s.delivered == r;
    } else {
      assert s.delivered <= Packets(s);
    }
    forall i | 0 <= i < |s.delivered| && s.delivered[i] != []
      ensures GoodPacket(link, s.delivered[i])
    {
      assert s.delivered[i] == r[i] == Packets(s)[i] == s.sent[i];
    }
  }

  /** Whatever the schedule of short reads and writes, and wherever reading or writing fails: at
      every moment of every run that writes nothing behind a torn frame. */
  lemma EndToEnd(link: Link, steps: seq<Step>)
    requires IsRun(link, START, steps) && StopsAtTear(link, START, steps)
    ensures Arrives(link, After(link, START, steps))
  {
    StartInv(link);
    RunInv(link, START, steps);
    InOrderArrives(link, After(link, START, steps));
  }

  /** When all is written, read and collected, all has been delivered. */
  lemma AllDelivered(link: Link, s: State)
    requires Inv(link, s) && !s.torn && !s.closed
    requires s.unwritten == [] && s.stream == [] && s.queue == []
    ensures s.delivered == s.sent
  {
    assert Packets(s) == s.delivered;
    assert Wire(s.delivered) + s.partial + [] + [] == Wire(s.delivered) + s.partial;
    OnItsWay(s.sent, s.delivered, s.partial);
    if s.partial != [] {
      var p := s.sent[|s.delivered|];
      assert GoodPacket(link, p);
      FrameRead(p, Wire(s.sent[|s.delivered| + 1..]), s.partial, []);
    }
    assert s.sent[|s.delivered|..] == [];
  }

  /** What the receiver does next, when there is something to read or to collect. */
  function Intake(s: State): Step {
    if s.stream != [] then ReadSome(1) else if s.queue != [] then Recv(|s.queue[0]|) else ReadFails
  }

  lemma TakesIn(link: Link, s: State)
    requires Inv(link, s) && !s.closed && (s.stream != [] || s.queue != [])
    ensures Enabled(s, Intake(s)) && !Intake(s).ReadFails?
    ensures var t := Next(link, s, Intake(s));
            && Inv(link, t) && !t.closed && t.unwritten == s.unwritten && t.torn == s.torn
            && t.sent == s.sent
            && 2 * |t.stream| + |t.queue| < 2 * |s.stream| + |s.queue|
  {
    assert Wanted(s.partial) > 0;
    hide GoodPacket, Aligned;
    if s.stream != [] {
      ReadInv(link, s, 1);
    } else {
      QueueInv(link, s, Recv(|s.queue[0]|));
    }
  }

  lemma RunCons(link: Link, s: State, step: Step, rest: seq<Step>)
    requires Enabled(s, step) && IsRun(link, Next(link, s, step), rest)
    ensures IsRun(link, s, [step] + rest)
    ensures After(link, s, [step] + rest) == After(link, Next(link, s, step), rest)
    ensures StopsAtTear(link, s, [step] + rest)
            <==> !WritesBehindTear(s, step) && StopsAtTear(link, Next(link, s, step), rest)
  {
    assert ([step] + rest)[1..] == rest;
  }

  /** Nothing is stuck: as long as no frame is torn and the receiver has not given up, writing,
      reading and collecting leads to where everything sent has been delivered. */
  lemma {:induction false} Progress(link: Link, s: State) returns (steps: seq<Step>)
    requires Inv(link, s) && !s.torn && !s.closed
    ensures IsRun(link, s, steps) && StopsAtTear(link, s, steps)
    ensures After(link, s, steps).delivered == After(link, s, steps).sent == s.sent
    decreases 3 * |s.unwritten| + 2 * |s.stream| + |s.queue|
  {
    if s.unwritten == [] && s.stream == [] && s.queue == [] {
      AllDelivered(link, s);
      return [];
    }
    hide Inv, Wire, GoodPacket;
    var step := if s.unwritten != [] then WriteSome(|s.unwritten|) else Intake(s);
    if s.unwritten != [] {
      WriteInv(link, s, |s.unwritten|);
    } else {
      TakesIn(link, s);
    }
    var rest := Progress(link, Next(link, s, step));
    steps := [step] + rest;
    RunCons(link, s, step, rest);
  }

  // ------------------------------------------------------------------ a torn frame

  /** From here on no call fails. */
  predicate Undisturbed(steps: seq<Step>) {
    forall i :: 0 <= i < |steps| ==> !steps[i].WriteStops? && !steps[i].ReadFails?
  }

  lemma RunStep(link: Link, s: State, step: Step, rest: seq<Step>)
    requires Enabled(s, step) && IsRun(link, Next(link, s, step), rest)
    requires Undisturbed(rest) && !step.WriteStops? && !step.ReadFails?
    ensures IsRun(link, s, [step] + rest) && Undisturbed([step] + rest)
    ensures After(link, s, [step] + rest) == After(link, Next(link, s, step), rest)
  {
    RunCons(link, s, step, rest);
  }

  /** Two runs, one behind the other. */
  lemma {:induction false} RunBoth(link: Link, s: State, a: seq<Step>, b: seq<Step>)
    requires IsRun(link, s, a) && IsRun(link, After(link, s, a), b)
    requires Undisturbed(a) && Undisturbed(b)
    ensures IsRun(link, s, a + b) && Undisturbed(a + b)
    ensures After(link, s, a + b) == After(link, After(link, s, a), b)
    decreases |a|
  {
    if a == [] {
      assert a + b == b;
    } else {
      assert (a + b)[1..] == a[1..] + b;
      assert Undisturbed(a[1..]) by {
        assert forall i :: 0 <= i < |a| - 1 ==> a[1..][i] == a[i + 1];
      }
      RunBoth(link, Next(link, s, a[0]), a[1..], b);
    }
  }

  /** As long as no frame is torn and no call fails, none gets torn. */
  lemma {:induction false} StaysWhole(link: Link, s: State, steps: seq<Step>)
    requires Inv(link, s) && !s.torn && IsRun(link, s, steps) && Undisturbed(steps)
    ensures Inv(link, After(link, s, steps))
    decreases |steps|
  {
    if steps != [] {
      var rest := steps[1..];
      assert Undisturbed(rest) by {
        assert forall i :: 0 <= i < |rest| ==> rest[i] == steps[i + 1];
      }
      StepInv(link, s, steps[0]);
      assert !Next(link, s, steps[0]).torn;
      StaysWhole(link, Next(link, s, steps[0]), rest);
    }
  }

  /** A receiver that has given up is not led astray any more. */
  lemma {:induction false} StaysClosed(link: Link, s: State, steps: seq<Step>)
    requires InOrder(link, s) && s.closed && IsRun(link, s, steps) && Undisturbed(steps)
    ensures InOrder(link, After(link, s, steps))
    decreases |steps|
  {
    if steps != [] {
      var rest := steps[1..];
      assert Undisturbed(rest) by {
        assert forall i :: 0 <= i < |rest| ==> rest[i] == steps[i + 1];
      }
      ClosedStep(link, s, steps[0]);
      StaysClosed(link, Next(link, s, steps[0]), rest);
    }
  }

  lemma ClosedStep(link: Link, s: State, step: Step)
    requires InOrder(link, s) && s.closed && Enabled(s, step)
    requires !step.WriteStops? && !step.ReadFails?
    ensures InOrder(link, Next(link, s, step)) && Next(link, s, step).closed
  {
    hide GoodPacket, Stamped, Sendable, Stopped, Arrive, Frame, Wanted;
    var t := Next(link, s, step);
    match step {
      case Send(segment) =>
        StampedGood(link, segment);
      case WriteSome(n) =>
        assert Packets(t) == Packets(s);
      case Recv(n) =>
        assert Received(t) == Received(s);
    }
  }

  lemma StampedGood(link: Link, segment: seq<byte>)
    requires Sendable(segment)
    ensures GoodPacket(link, Stamped(link, segment))
  {
    StampedArrives(link, segment);
  }

  /** The receiver takes in all that is on its way. */
  lemma {:induction false} Drain(link: Link, s: State) returns (steps: seq<Step>)
    requires Inv(link, s) && !s.closed && s.unwritten == []
    ensures IsRun(link, s, steps) && Undisturbed(steps)
    ensures var t := After(link, s, steps);
            && Inv(link, t) && !t.closed && t.unwritten == [] && t.torn == s.torn
            && t.stream == [] && t.queue == [] && t.sent == s.sent
    decreases 2 * |s.stream| + |s.queue|
  {
    if s.stream == [] && s.queue == [] {
      return [];
    }
    var step := Intake(s);
    hide Inv, GoodPacket, Intake;
    TakesIn(link, s);
    var rest := Drain(link, Next(link, s, step));
    steps := [step] + rest;
    RunStep(link, s, step, rest);
  }

  /** What the receiver holds then is a beginning, perhaps an empty one, of the torn frame. */
  lemma TornFrame(link: Link, s: State)
    requires Inv(link, s) && s.torn && !s.closed && s.stream == [] && s.queue == []
    ensures var k := |s.delivered|;
            && k < |s.sent| && s.delivered == s.sent[..k] && Fits(s.sent[k])
            && |s.partial| < |Frame(s.sent[k])| && s.partial == Frame(s.sent[k])[..|s.partial|]
            && |s.sent[k]| <= MAX_IP_PAYLOAD_LEN
  {
    hide GoodPacket, Wire, Aligned, Behind, Frame;
    var k, behind := |s.delivered|, Behind(s);
    assert Packets(s) == s.delivered;
    BehindIs(s);
    assert Wire(s.delivered) + s.partial + [] + behind == Wire(s.delivered) + (s.partial + behind);
    OnItsWay(s.sent, s.delivered, s.partial + behind);
    var p, tail := s.sent[k], Wire(s.sent[k + 1..]);
    GoodFits(link, p);
    FrameRead(p, tail, s.partial, behind);
    PrefixOf(s.partial, behind, Frame(p), tail);
  }

  lemma GoodFits(link: Link, p: seq<byte>)
    requires GoodPacket(link, p)
    ensures Fits(p) && |p| <= MAX_IP_PAYLOAD_LEN
  {
  }

  lemma PrefixOf(a: seq<byte>, b: seq<byte>, c: seq<byte>, d: seq<byte>)
    requires a + b == c + d && |a| <= |c|
    ensures a == c[..|a|]
  {
    assert (a + b)[..|a|] == a && (c + d)[..|a|] == c[..|a|];
  }

  /** Two more segments, written behind the tear. */
  lemma SendTwice(link: Link, s: State, b: seq<byte>) returns (steps: seq<Step>)
    requires s.unwritten == [] && s.stream == [] && Sendable(b)
    ensures IsRun(link, s, steps) && Undisturbed(steps)
    ensures var f := Frame(Stamped(link, b));
            After(link, s, steps)
            == s.(stream := f + f, sent := s.sent + [Stamped(link, b)] + [Stamped(link, b)])
  {
    var q := Stamped(link, b);
    var f := Frame(q);
    hide Stamped, Frame, Sendable;
    var write := WriteSome(|f|);
    var s1 := Next(link, s, Send(b));
    var s2 := Next(link, s1, write);
    assert s2 == s.(stream := f, sent := s.sent + [q]) by {
      assert [] + f[..|f|] == f;
    }
    var s3 := Next(link, s2, Send(b));
    var s4 := Next(link, s3, write);
    assert f[..|f|] == f;
    RunStep(link, s3, write, []);
    RunStep(link, s2, Send(b), [write] + []);
    RunStep(link, s1, write, [Send(b)] + ([write] + []));
    steps := [Send(b)] + ([write] + ([Send(b)] + ([write] + [])));
    RunStep(link, s, Send(b), [write] + ([Send(b)] + ([write] + [])));
  }

  /** The receiver makes one packet of what it holds and what follows. */
  lemma ReadsOne(link: Link, s: State, q: seq<byte>, rest: seq<byte>) returns (steps: seq<Step>)
    requires !s.closed && s.queue == [] && |q| > 0 && Fits(q)
    requires s.partial + s.stream == Frame(q) + rest && |s.partial| < |Frame(q)|
    ensures IsRun(link, s, steps) && Undisturbed(steps)
    ensures var t := After(link, s, steps);
            t.delivered == s.delivered + [q] && t.sent == s.sent && !t.closed
  {
    var j := |s.partial|;
    if j < 2 {
      var t := Next(link, s, ReadSome(2 - j));
      HeaderRead(s, q, rest);
      var more := ReadsBody(link, t, q, rest);
      steps := [ReadSome(2 - j)] + more;
      RunStep(link, s, ReadSome(2 - j), more);
    } else {
      steps := ReadsBody(link, s, q, rest);
    }
  }

  lemma HeaderRead(s: State, q: seq<byte>, rest: seq<byte>)
    requires Fits(q) && s.partial + s.stream == Frame(q) + rest && |s.partial| < 2
    ensures var n := 2 - |s.partial|;
            && n <= |s.stream| && |s.partial + s.stream[..n]| == 2
            && LengthOf(s.partial + s.stream[..n]) == |q|
            && (s.partial + s.stream[..n]) + s.stream[n..] == Frame(q) + rest
  {
    var n := 2 - |s.partial|;
    assert |s.partial + s.stream| >= 2;
    assert s.stream == s.stream[..n] + s.stream[n..];
    var head := s.partial + s.stream[..n];
    assert head + s.stream[n..] == Frame(q) + rest;
    LengthRoundTrip(q, rest);
    assert head[0] == (Frame(q) + rest)[0] && head[1] == (Frame(q) + rest)[1];
  }

  lemma ReadsBody(link: Link, s: State, q: seq<byte>, rest: seq<byte>) returns (steps: seq<Step>)
    requires !s.closed && s.queue == [] && Fits(q) && 2 <= |s.partial| < |Frame(q)|
    requires s.partial + s.stream == Frame(q) + rest
    ensures IsRun(link, s, steps) && Undisturbed(steps)
    ensures var t := After(link, s, steps);
            t.delivered == s.delivered + [q] && t.sent == s.sent && !t.closed
  {
    var n := |Frame(q)| - |s.partial|;
    assert |s.partial + s.stream| >= |Frame(q)|;
    var read := s.partial + s.stream[..n];
    assert read == (s.partial + s.stream)[..|Frame(q)|] == Frame(q);
    LengthRoundTrip(q, rest);
    assert s.partial[0] == (Frame(q) + rest)[0] && s.partial[1] == (Frame(q) + rest)[1];
    assert LengthOf(read) == |q| && read[2..] == q;
    var t1 := Next(link, s, ReadSome(n));
    assert t1.queue == [] + [q] == [q];
    assert [q][1..] == [];
    RunStep(link, t1, Recv(|q|), []);
    steps := [ReadSome(n)] + ([Recv(|q|)] + []);
    RunStep(link, s, ReadSome(n), [Recv(|q|)] + []);
  }

  /** Behind a part of the frame of `p` comes the frame `f`, twice, whose first octet is not the one
      that is due. */
  predicate Misplaced(p: seq<byte>, partial: seq<byte>, f: seq<byte>) {
    && Fits(p) && |p| <= MAX_IP_PAYLOAD_LEN
    && |partial| < |Frame(p)| && partial == Frame(p)[..|partial|]
    && 1026 <= |f| <= 1282 && LengthOf(f) == |f| - 2
    && f[0] != Frame(p)[|partial|]
  }

  lemma MisplacedLength(p: seq<byte>, partial: seq<byte>, f: seq<byte>)
    requires Misplaced(p, partial, f)
    ensures var all := partial + (f + f);
            && |all| >= 2 && 0 < LengthOf(all) <= |all| - 2 && |partial| < 2 + LengthOf(all)
            && |partial| < |Frame(p)| && all[|partial|] != Frame(p)[|partial|]
  {
    var all, j := partial + (f + f), |partial|;
    LengthRoundTrip(p, []);
    assert Frame(p) + [] == Frame(p);
    assert all[j] == f[0] && |all| == j + 2 * |f|;
    if j == 0 {
      assert all[0] == f[0] && all[1] == f[1];
    } else if j == 1 {
      assert all[0] == Frame(p)[0] && all[1] == f[0];
      assert Frame(p)[0] == |p| / 256 <= 5;
    } else {
      assert all[0] == Frame(p)[0] && all[1] == Frame(p)[1];
    }
  }

  /** What is read then is a packet, but not `p`. */
  lemma WrongPacket(p: seq<byte>, partial: seq<byte>, f: seq<byte>)
    returns (q: seq<byte>, rest: seq<byte>)
    requires Misplaced(p, partial, f)
    ensures Fits(q) && q != p && partial + (f + f) == Frame(q) + rest && |partial| < |Frame(q)|
  {
    MisplacedLength(p, partial, f);
    var all := partial + (f + f);
    var n := LengthOf(all);
    q, rest := all[2..2 + n], all[2 + n..];
    FrameInFront(all);
    hide Misplaced, Frame, LengthOf;
    assert (Frame(q) + rest)[|partial|] == Frame(q)[|partial|];
  }

  lemma FrameInFront(all: seq<byte>)
    requires |all| >= 2 && 0 < LengthOf(all) <= |all| - 2
    ensures var n := LengthOf(all);
            Frame(all[2..2 + n]) + all[2 + n..] == all
  {
    var n := LengthOf(all);
    assert Frame(all[2..2 + n]) == [all[0], all[1]] + all[2..2 + n];
  }

  /** A segment whose length does not begin with this octet. */
  lemma OtherLength(link: Link, e: byte) returns (b: seq<byte>)
    ensures Sendable(b)
    ensures var f := Frame(Stamped(link, b)); 1026 <= |f| <= 1282 && LengthOf(f) == |f| - 2 && f[0] != e
  {
    b := seq(if e == 5 then 1024 else 1280, i => 0);
    var q := Stamped(link, b);
    LengthRoundTrip(q, []);
    assert Frame(q) + [] == Frame(q);
  }

  /** From every torn state there is a run without failures in which a packet is delivered that was
      not sent, or not then. */
  lemma TornDelivers(link: Link, s: State) returns (steps: seq<Step>)
    requires Inv(link, s) && s.torn && !s.closed && s.unwritten == []
    ensures IsRun(link, s, steps) && Undisturbed(steps) && !Arrives(link, After(link, s, steps))
  {
    hide Inv, GoodPacket, Stamped, Sendable;
    var a := Drain(link, s);
    var t := After(link, s, a);
    TornFrame(link, t);
    var k := |t.delivered|;
    var p := t.sent[k];
    var b := OtherLength(link, Frame(p)[|t.partial|]);
    var f := Frame(Stamped(link, b));
    assert Misplaced(p, t.partial, f);
    var c := SendTwice(link, t, b);
    var u := After(link, t, c);
    var q, rest := WrongPacket(p, t.partial, f);
    hide Frame;
    var d := ReadsOne(link, u, q, rest);
    var v := After(link, u, d);
    assert v.delivered[k] == q && v.sent[k] == p;
    RunBoth(link, t, c, d);
    RunBoth(link, s, a, c + d);
    steps := a + (c + d);
  }

  /** Between two segments: whatever is sent from here on without failures arrives as it should
      exactly if no frame has been torn, or the receiver has given up.  A sender can know whether a
      frame is torn: a send has failed. */
  lemma ArrivesExactly(link: Link, s: State)
    requires Inv(link, s) && s.unwritten == []
    ensures (forall steps :: IsRun(link, s, steps) && Undisturbed(steps) ==>
               Arrives(link, After(link, s, steps)))
            <==> !s.torn || s.closed
  {
    hide Arrives, InOrder, Aligned;
    if s.torn && !s.closed {
      var steps := TornDelivers(link, s);
      assert IsRun(link, s, steps) && Undisturbed(steps) && !Arrives(link, After(link, s, steps));
    } else {
      forall steps | IsRun(link, s, steps) && Undisturbed(steps)
        ensures Arrives(link, After(link, s, steps))
      {
        if s.closed {
          StaysClosed(link, s, steps);
        } else {
          StaysWhole(link, s, steps);
        }
        InOrderArrives(link, After(link, s, steps));
      }
    }
  }

  /** Such states come about: a send fails inside its frame. */
  lemma TornState(link: Link, a: seq<byte>, n: nat)
    requires Sendable(a) && 0 < n < 2 + |a|
    ensures var steps := [Send(a), WriteSome(n), WriteStops(2 + |a| - n)];
            && IsRun(link, START, steps) && StopsAtTear(link, START, steps)
            && var s := After(link, START, steps);
               Inv(link, s) && s.torn && !s.closed && s.unwritten == []
  {
    hide Stamped, GoodPacket;
    var lost := WriteStops(2 + |a| - n);
    var s1 := Next(link, START, Send(a));
    assert |s1.unwritten| == 2 + |a|;
    var s2 := Next(link, s1, WriteSome(n));
    var s3 := Next(link, s2, lost);
    assert s3.torn && s3.unwritten == [];
    StartInv(link);
    hide Inv;
    StepInv(link, START, Send(a));
    StepInv(link, s1, WriteSome(n));
    StepInv(link, s2, lost);
    RunCons(link, s2, lost, []);
    RunCons(link, s1, WriteSome(n), [lost] + []);
    RunCons(link, START, Send(a), [WriteSome(n)] + ([lost] + []));
    assert [Send(a), WriteSome(n), lost] == [Send(a)] + ([WriteSome(n)] + ([lost] + []));
  }
}
