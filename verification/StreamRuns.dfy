/** Whole runs of one mysocket: what `myread` may return, and when the transport layer hears
    of `myclose`. */
module StreamRuns {
  import opened Bytes
  import opened PacketQueue
  import opened MysockContext

  // ------------------------------------------------------------------ reading

  datatype ReadOp = Send(payload: seq<byte>) | Fin | Read(size: nat)

  /** The read side with its history: everything sent up before the first end marker,
      whether there was one, and everything read. */
  datatype Reader = Reader(side: Inbound, payload: seq<byte>, ended: bool, got: seq<byte>)

  const READER := Reader(Inbound([], false), [], false, [])

  predicate ReadEnabled(s: Reader, op: ReadOp) {
    op.Read? ==> s.side.eof || s.side.queue != []
  }

  /** A read of no octets meets a packet that is not empty: the flag goes up, the packet stays. */
  predicate Cuts(s: Reader, op: ReadOp)
    requires ReadEnabled(s, op)
  {
    op == Read(0) && !s.side.eof && s.side.queue[0] != []
  }

  function ReadStep(s: Reader, op: ReadOp): Reader
    requires ReadEnabled(s, op)
  {
    match op
    case Send(p) =>
      s.(side := if p == [] then s.side else s.side.(queue := s.side.queue + [p]),
         payload := if s.ended then s.payload else s.payload + p)
    case Fin => s.(side := s.side.(queue := s.side.queue + [[]]), ended := true)
    case Read(n) =>
      s.(side := AfterRead(s.side, n), got := s.got + ReadBytes(s.side, n))
  }

  /** The octets in front of the first empty packet. */
  function BeforeEnd(q: seq<seq<byte>>): seq<byte> {
    if q == [] || q[0] == [] then [] else q[0] + BeforeEnd(q[1..])
  }

  lemma {:induction false} BeforeEndSnoc(q: seq<seq<byte>>, p: seq<byte>)
    ensures BeforeEnd(q + [p]) == if [] in q then BeforeEnd(q) else BeforeEnd(q) + p
  {
    if q != [] && q[0] != [] {
      assert (q + [p])[1..] == q[1..] + [p];
      BeforeEndSnoc(q[1..], p);
    } else if q == [] {
      assert BeforeEnd([p][1..]) == [];
    }
  }

  /** What is still to be read, up to the first end marker, is queued. */
  predicate Queued(s: Reader) {
    && s.got + BeforeEnd(s.side.queue) == s.payload
    && (s.ended <==> [] in s.side.queue)
  }

  /** The flag is up, although there is more to read. */
  predicate CutShort(s: Reader) {
    s.side.eof && Queued(s) && s.side.queue != [] && s.side.queue[0] != []
  }

  /** The flag is up only if all that was sent before an end marker has been read. */
  predicate Whole(s: Reader) {
    s.side.eof ==> s.ended && s.got == s.payload
  }

  /** Nothing is lost, doubled or reordered; at worst the stream is cut short. */
  predicate ReadInv(s: Reader) {
    if s.side.eof then Whole(s) || CutShort(s) else Queued(s)
  }

  lemma ReadStepInv(s: Reader, op: ReadOp)
    requires ReadInv(s) && ReadEnabled(s, op)
    ensures ReadInv(ReadStep(s, op))
    ensures Whole(s) ==> if Cuts(s, op) then CutShort(ReadStep(s, op)) else Whole(ReadStep(s, op))
    ensures CutShort(s) ==> CutShort(ReadStep(s, op))
  {
    match op
    case Send(p) => PutInv(s, op, p);
    case Fin => PutInv(s, op, []);
    case Read(n) => TakeInv(s, n);
  }

  lemma PutInv(s: Reader, op: ReadOp, p: seq<byte>)
    requires ReadInv(s) && (if p == [] then op.Fin? || op == Send([]) else op == Send(p))
    ensures ReadInv(ReadStep(s, op))
    ensures Whole(s) ==> Whole(ReadStep(s, op))
    ensures CutShort(s) ==> CutShort(ReadStep(s, op))
  {
    var q := s.side.queue;
    BeforeEndSnoc(q, p);
    hide BeforeEnd;
    assert (s.got + BeforeEnd(q)) + p == s.got + (BeforeEnd(q) + p);
    assert q != [] ==> (q + [p])[0] == q[0];
  }

  lemma TakeInv(s: Reader, n: nat)
    requires ReadInv(s) && ReadEnabled(s, Read(n))
    ensures ReadInv(ReadStep(s, Read(n)))
    ensures Whole(s) ==> if Cuts(s, Read(n)) then CutShort(ReadStep(s, Read(n)))
                         else Whole(ReadStep(s, Read(n)))
    ensures CutShort(s) ==> CutShort(ReadStep(s, Read(n)))
  {
    if !s.side.eof {
      var p, rest := s.side.queue[0], s.side.queue[1..];
      assert s.side.queue == [p] + rest;
      if |p| > n {
        assert ([p[n..]] + rest)[1..] == rest;
        assert p == p[..n] + p[n..];
      }
    }
  }

  predicate IsReadRun(s: Reader, ops: seq<ReadOp>)
    decreases |ops|
  {
    ops == [] || (ReadEnabled(s, ops[0]) && IsReadRun(ReadStep(s, ops[0]), ops[1..]))
  }

  function AfterReads(s: Reader, ops: seq<ReadOp>): Reader
    requires IsReadRun(s, ops)
    decreases |ops|
  {
    if ops == [] then s else AfterReads(ReadStep(s, ops[0]), ops[1..])
  }

  lemma {:induction false} ReadRunInv(s: Reader, ops: seq<ReadOp>)
    requires ReadInv(s) && IsReadRun(s, ops)
    ensures ReadInv(AfterReads(s, ops))
    decreases |ops|
  {
    if ops != [] {
      ReadStepInv(s, ops[0]);
      ReadRunInv(ReadStep(s, ops[0]), ops[1..]);
    }
  }

  predicate EverCuts(s: Reader, ops: seq<ReadOp>)
    requires IsReadRun(s, ops)
    decreases |ops|
  {
    ops != [] && (Cuts(s, ops[0]) || EverCuts(ReadStep(s, ops[0]), ops[1..]))
  }

  /** The end is the true end exactly when no read of size 0 met a packet that was not empty; and
      otherwise octets are left over for good. */
  lemma {:induction false} StreamWhole(s: Reader, ops: seq<ReadOp>)
    requires ReadInv(s) && Whole(s) && IsReadRun(s, ops)
    ensures Whole(AfterReads(s, ops)) <==> !EverCuts(s, ops)
    ensures EverCuts(s, ops) ==> AfterReads(s, ops).got < AfterReads(s, ops).payload
    decreases |ops|
  {
    if ops != [] {
      ReadStepInv(s, ops[0]);
      if Cuts(s, ops[0]) {
        CutStays(ReadStep(s, ops[0]), ops[1..]);
      } else {
        StreamWhole(ReadStep(s, ops[0]), ops[1..]);
      }
    }
  }

  lemma {:induction false} CutStays(s: Reader, ops: seq<ReadOp>)
    requires CutShort(s) && IsReadRun(s, ops)
    ensures var t := AfterReads(s, ops); CutShort(t) && !Whole(t) && t.got < t.payload
    decreases |ops|
  {
    if ops == [] {
      assert BeforeEnd(s.side.queue) != [];
      assert |s.payload| > |s.got|;
    } else {
      ReadStepInv(s, ops[0]);
      CutStays(ReadStep(s, ops[0]), ops[1..]);
    }
  }

  /** Over every run: what was read is a prefix of what was sent before the first end marker; and
      if no read of size 0 met a packet that was not empty, a read that returns 0 comes only after
      an end marker and after all of it. */
  lemma ReadsArePrefix(ops: seq<ReadOp>, size: nat)
    requires IsReadRun(READER, ops)
    ensures var s := AfterReads(READER, ops);
            && s.got <= s.payload
            && (ReadEnabled(s, Read(size)) && ReadBytes(s.side, size) == []
                && !EverCuts(READER, ops) && !Cuts(s, Read(size))
                ==> s.ended && s.got == s.payload)
  {
    ReadRunInv(READER, ops);
    StreamWhole(READER, ops);
  }

  /** Once a read has returned 0, every later read returns 0, whatever is sent. */
  lemma {:induction false} EndIsForever(s: Reader, size: nat, ops: seq<ReadOp>)
    requires ReadEnabled(s, Read(size)) && ReadBytes(s.side, size) == []
    requires IsReadRun(ReadStep(s, Read(size)), ops)
    ensures var t := AfterReads(ReadStep(s, Read(size)), ops);
            t.side.eof && t.got == s.got
  {
    EofStays(ReadStep(s, Read(size)), ops);
  }

  lemma {:induction false} EofStays(s: Reader, ops: seq<ReadOp>)
    requires s.side.eof && IsReadRun(s, ops)
    ensures AfterReads(s, ops).side.eof && AfterReads(s, ops).got == s.got
    decreases |ops|
  {
    if ops != [] {
      EofStays(ReadStep(s, ops[0]), ops[1..]);
    }
  }

  /** A single read: one of no octets raises the flag at once, and that
      is the true end exactly when an end marker is at the head. */
  lemma EmptyReadEnds(s: Inbound)
    requires !s.eof && s.queue != []
    ensures AfterRead(s, 0).eof
    ensures s.queue[0] == [] <==> forall n: nat :: n > 0 ==> AfterRead(s, n).eof
  {
    assert AfterRead(s, 1).eof <==> s.queue[0] == [];
  }

  // ------------------------------------------------------------------ closing

  datatype WriteOp = Write(buf: seq<byte>) | Close | Wait | Recv(maxLen: nat)

  /** The write side with its history: octets written and taken, close requests made and
      close events reported. */
  datatype Writer = Writer(side: Outbound, written: seq<byte>, taken: seq<byte>,
                           requests: nat, reports: nat)

  const WRITER := Writer(Outbound([], false), [], [], 0, 0)

  /** `mywrite` asserts that no close request is pending. */
  predicate WriteEnabled(s: Writer, op: WriteOp) {
    && (op.Write? ==> !s.side.closeRequested)
    && (op.Recv? ==> s.side.queue != [])
  }

  function WriteStep(s: Writer, op: WriteOp): Writer
    requires WriteEnabled(s, op)
  {
    match op
    case Write(b) =>
      s.(side := s.side.(queue := s.side.queue + [b]), written := s.written + b)
    case Close => s.(side := s.side.(closeRequested := true), requests := s.requests + 1)
    case Wait =>
      s.(side := AfterWait(s.side), reports := s.reports + if CloseDue(s.side) then 1 else 0)
    case Recv(n) =>
      s.(side := s.side.(queue := Left(s.side.queue, n, true)),
         taken := s.taken + Taken(s.side.queue[0], n))
  }

  predicate WriteInv(s: Writer) {
    && s.taken + Flatten(s.side.queue) == s.written
    && s.reports + (if s.side.closeRequested then 1 else 0) <= s.requests
  }

  lemma WriteStepInv(s: Writer, op: WriteOp)
    requires WriteInv(s) && WriteEnabled(s, op)
    ensures WriteInv(WriteStep(s, op))
  {
    match op
    case Write(b) => FlattenSnoc(s.side.queue, b);
    case Close =>
    case Wait =>
    case Recv(n) => StepConserves(Log(s.side.queue, s.written, s.taken), Take(n, true));
  }

  predicate IsWriteRun(s: Writer, ops: seq<WriteOp>)
    decreases |ops|
  {
    ops == [] || (WriteEnabled(s, ops[0]) && IsWriteRun(WriteStep(s, ops[0]), ops[1..]))
  }

  function AfterWrites(s: Writer, ops: seq<WriteOp>): Writer
    requires IsWriteRun(s, ops)
    decreases |ops|
  {
    if ops == [] then s else AfterWrites(WriteStep(s, ops[0]), ops[1..])
  }

  lemma {:induction false} WriteRunInv(s: Writer, ops: seq<WriteOp>)
    requires WriteInv(s) && IsWriteRun(s, ops)
    ensures WriteInv(AfterWrites(s, ops))
    decreases |ops|
  {
    if ops != [] {
      WriteStepInv(s, ops[0]);
      WriteRunInv(WriteStep(s, ops[0]), ops[1..]);
    }
  }

  /** Over every run: the close event is reported at most once per request, and when it is
      about to be reported every octet written has been taken. */
  lemma CloseAfterData(ops: seq<WriteOp>)
    requires IsWriteRun(WRITER, ops)
    ensures var s := AfterWrites(WRITER, ops);
            s.reports <= s.requests && (CloseDue(s.side) ==> s.taken == s.written)
  {
    WriteRunInv(WRITER, ops);
  }

  predicate NoWrites(ops: seq<WriteOp>) {
    forall i :: 0 <= i < |ops| ==> !ops[i].Write?
  }

  /** At every moment of the run there is nothing left to take. */
  predicate StaysEmpty(s: Writer, ops: seq<WriteOp>)
    requires IsWriteRun(s, ops)
    decreases |ops|
  {
    s.side.queue == [] && (ops == [] || StaysEmpty(WriteStep(s, ops[0]), ops[1..]))
  }

  /** The report is final exactly when nothing is written after it. */
  lemma {:induction false} ReportIsFinal(s: Writer, ops: seq<WriteOp>)
    requires WriteInv(s) && CloseDue(s.side) && IsWriteRun(s, [Wait] + ops)
    ensures IsWriteRun(WriteStep(s, Wait), ops)
    ensures StaysEmpty(WriteStep(s, Wait), ops) <==> NoWrites(ops)
    ensures NoWrites(ops) ==>
              var t := AfterWrites(s, [Wait] + ops); t.taken == t.written == s.written
  {
    assert ([Wait] + ops)[1..] == ops;
    EmptyExactly(WriteStep(s, Wait), ops);
    WriteRunInv(s, [Wait] + ops);
  }

  lemma {:induction false} EmptyExactly(s: Writer, ops: seq<WriteOp>)
    requires s.side.queue == [] && IsWriteRun(s, ops)
    ensures StaysEmpty(s, ops) <==> NoWrites(ops)
    ensures NoWrites(ops) ==>
              AfterWrites(s, ops).side.queue == [] && AfterWrites(s, ops).written == s.written
    decreases |ops|
  {
    if ops != [] {
      var rest := ops[1..];
      assert NoWrites(ops) <==> !ops[0].Write? && NoWrites(rest) by {
        assert forall i :: 0 <= i < |rest| ==> rest[i] == ops[i + 1];
        assert forall i :: 0 < i < |ops| ==> ops[i] == rest[i - 1];
      }
      if !ops[0].Write? {
        EmptyExactly(WriteStep(s, ops[0]), rest);
      } else {
        var t := WriteStep(s, ops[0]);
        assert t.side.queue == [ops[0].buf];
      }
    }
  }

  /** After a report it takes another close request to get another report. */
  lemma {:induction false} OneReportPerClose(s: Writer, ops: seq<WriteOp>)
    requires !s.side.closeRequested && IsWriteRun(s, ops)
    requires forall i :: 0 <= i < |ops| ==> !ops[i].Close?
    ensures AfterWrites(s, ops).reports == s.reports
    decreases |ops|
  {
    if ops != [] {
      var rest := ops[1..];
      assert forall i :: 0 <= i < |rest| ==> rest[i] == ops[i + 1];
      OneReportPerClose(WriteStep(s, ops[0]), rest);
    }
  }

  /** The assertion in `mywrite` does not see to that: it is lifted when the event has been
      reported, and a later write is accepted.  No wait announces its octets, until there is
      another close request. */
  lemma WriteAfterReport(b: seq<byte>)
    requires b != []
    ensures var ops := [Close, Wait, Write(b)];
            IsWriteRun(WRITER, ops)
            && var s := AfterWrites(WRITER, ops);
               s.reports == 1 && s.taken != s.written && !s.side.closeRequested
               && var more := [Close, Recv(|b|), Wait];
                  IsWriteRun(s, more)
                  && var t := AfterWrites(s, more); t.reports == 2 && t.taken == t.written
  {
    var s1 := WriteStep(WRITER, Close);
    var s2 := WriteStep(s1, Wait);
    var s3 := WriteStep(s2, Write(b));
    RunOfThree(WRITER, Close, Wait, Write(b));
    assert s3.side.queue == [b];
    var t1 := WriteStep(s3, Close);
    var t2 := WriteStep(t1, Recv(|b|));
    assert Left([b], |b|, true) == [] && Taken(b, |b|) == b;
    RunOfThree(s3, Close, Recv(|b|), Wait);
  }

  lemma RunOfThree(s: Writer, a: WriteOp, b: WriteOp, c: WriteOp)
    requires WriteEnabled(s, a) && WriteEnabled(WriteStep(s, a), b)
    requires WriteEnabled(WriteStep(WriteStep(s, a), b), c)
    ensures IsWriteRun(s, [a, b, c])
    ensures AfterWrites(s, [a, b, c]) == WriteStep(WriteStep(WriteStep(s, a), b), c)
  {
    var s1 := WriteStep(s, a);
    var s2 := WriteStep(s1, b);
    assert |[c][1..]| == 0 && IsWriteRun(s2, [c]);
    assert AfterWrites(s2, [c]) == WriteStep(s2, c);
    assert [b, c][1..] == [c] && [a, b, c][1..] == [b, c];
    assert IsWriteRun(s1, [b, c]) && AfterWrites(s1, [b, c]) == WriteStep(s2, c);
  }

  /** A close request is always heard of: once the rest has been taken, the next wait reports it. */
  lemma {:induction false} CloseIsReported(s: Writer) returns (ops: seq<WriteOp>)
    requires WriteInv(s) && s.side.closeRequested
    ensures NoWrites(ops) && IsWriteRun(s, ops)
    ensures var t := AfterWrites(s, ops);
            t.reports == s.reports + 1 && t.taken == t.written == s.written && !t.side.closeRequested
    decreases |s.side.queue|
  {
    if s.side.queue == [] {
      ops := [Wait];
      assert ops[1..] == [];
      assert AfterWrites(s, ops) == AfterWrites(WriteStep(s, Wait), []);
    } else {
      var op := Recv(|s.side.queue[0]|);
      WriteStepInv(s, op);
      var rest := CloseIsReported(WriteStep(s, op));
      ops := [op] + rest;
      assert ops[1..] == rest;
    }
  }
}
